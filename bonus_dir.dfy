/** The directory operations of the multi-level version
    (lab4/lab4_bonus/dir.c) as functions of the state they read and change:
    `osfs_lookup`, `osfs_new_inode`, `osfs_add_dir_entry` and `osfs_create`.
    A directory keeps its entries in the block named by `i_block[0]`. */
module BonusDir {
  import opened Layout
  import opened Alloc
  import opened Blocks
  import opened PointerMap
  import opened GetBlock
  import opened DirEntries

  /** Entries in use: `i_size / sizeof(struct osfs_dir_entry)`. */
  function EntryCount(n: Inode): nat
  {
    n.size / DIR_ENTRY_SIZE
  }

  /** A directory the code can work on: its entry block lies in the data
      zone and holds every entry its size counts. */
  predicate DirOk(n: Inode)
  {
    WfInode(n) && n.iBlock[0] < DATA_BLOCK_COUNT && EntryCount(n) <= MAX_DIR_ENTRIES
  }

  /** The entry block of directory n. */
  function DirBlock(n: Inode, d: seq<Block>): (b: Block)
    requires DirOk(n) && WfBlocks(d)
    ensures WfDir(b, EntryCount(n))
  {
    DirEntryLayout();
    d[n.iBlock[0]]
  }

  /** The scan of `osfs_lookup`: the inode number stored in the first
      in-use entry whose name is exactly `name`, or none. */
  function LookupSpec(n: Inode, d: seq<Block>, name: seq<byte>): (r: Option<nat>)
    requires DirOk(n) && WfBlocks(d)
    ensures r.None? <==> forall i :: 0 <= i < EntryCount(n) ==> EntryName(DirBlock(n, d), i) != name
  {
    var b := DirBlock(n, d);
    match FindEntry(b, EntryCount(n), name)
    case None => None
    case Some(i) => Some(EntryIno(b, i))
  }

  /** The record `osfs_new_inode` writes: zeroed, then number, mode, owner;
      size 0, no blocks, all 14 pointers 0 (the link count stays 0 in the
      record; the VFS inode carries it). */
  function FreshInode(ino: nat, mode: nat, uid: nat, gid: nat): (n: Inode)
    ensures DirOk(n) && n.ino == ino && n.mode == mode && n.uid == uid && n.gid == gid
    ensures n.size == 0 && n.blocks == 0 && n.links == 0
    ensures forall k :: 0 <= k < N_BLOCKS ==> n.iBlock[k] == 0
  {
    Inode(ino, 0, 0, mode, 0, uid, gid, seq(N_BLOCKS, _ => 0))
  }

  /** The inode-side state: bitmap, free counter and inode table. */
  datatype InodeSide = InodeSide(bitmap: seq<bool>, nrFree: nat, table: seq<Inode>)

  predicate WfInodeSide(s: InodeSide)
  {
    && |s.bitmap| >= INODE_COUNT && s.nrFree < U32_RANGE && |s.table| == INODE_COUNT
    && forall i :: 0 <= i < |s.table| ==> WfInode(s.table[i])
  }

  /** Return code (0 or a negative error number), the new inode number on
      success, and the new inode side. */
  datatype Created = Created(ret: int, ino: nat, side: InodeSide)

  /** `osfs_new_inode`: reject a mode that is not a directory, regular file
      or symbolic link; fail when the free count is 0 or the scan of
      `osfs_get_free_inode` finds nothing; fail with -ENOMEM when the VFS
      gives no inode (`vfsOk` false), with the claimed bit left set and the
      counter lowered; otherwise write a fresh record and lower the counter
      a second time. */
  function NewInodeSpec(s: InodeSide, mode: nat, uid: nat, gid: nat, vfsOk: bool): (c: Created)
    requires WfInodeSide(s)
    ensures WfInodeSide(c.side) && |c.side.bitmap| == |s.bitmap|
    ensures c.ret == 0 || c.ret == -EINVAL || c.ret == -ENOSPC || c.ret == -ENOMEM
    ensures c.ret != 0 ==> c.side.table == s.table
    ensures c.ret == 0 ==> (0 < c.ino < INODE_COUNT && !s.bitmap[c.ino]
      && c.side.table == s.table[c.ino := FreshInode(c.ino, mode, uid, gid)])
  {
    if !IsDir(mode) && !IsReg(mode) && !IsLnk(mode) then Created(-EINVAL, 0, s)
    else if s.nrFree == 0 then Created(-ENOSPC, 0, s)
    else
      match AllocSpec(s.bitmap, 1, INODE_COUNT, s.nrFree)
      case NoSpace => Created(-ENOSPC, 0, s)
      case Allocated(ino, bm, nf) =>
        if !vfsOk then Created(-ENOMEM, 0, s.(bitmap := bm, nrFree := nf))
        else Created(0, ino, InodeSide(bm, Dec32(nf), s.table[ino := FreshInode(ino, mode, uid, gid)]))
  }

  /** The checks come in order: a bad mode fails whatever the counters say;
      a zero free count fails before the bitmap is looked at; either failure
      changes nothing. */
  lemma NewInodeChecks(s: InodeSide, mode: nat, uid: nat, gid: nat, vfsOk: bool)
    requires WfInodeSide(s)
    ensures var c := NewInodeSpec(s, mode, uid, gid, vfsOk);
      && (!IsDir(mode) && !IsReg(mode) && !IsLnk(mode) ==> c == Created(-EINVAL, 0, s))
      && (IsDir(mode) || IsReg(mode) || IsLnk(mode) ==> c.ret != -EINVAL)
      && ((IsDir(mode) || IsReg(mode) || IsLnk(mode)) && s.nrFree == 0 ==> c == Created(-ENOSPC, 0, s))
  {
  }

  /** A successful `osfs_new_inode` sets one clear bit, the lowest at or
      above 1, yet lowers the free count by two: once in
      `osfs_get_free_inode` and once more itself. */
  lemma NewInodeCountsTwice(s: InodeSide, mode: nat, uid: nat, gid: nat, vfsOk: bool)
    requires WfInodeSide(s)
    ensures var c := NewInodeSpec(s, mode, uid, gid, vfsOk);
      c.ret == 0 ==>
        && c.side.bitmap == s.bitmap[c.ino := true] && !s.bitmap[c.ino]
        && (forall k :: 1 <= k < c.ino ==> s.bitmap[k])
        && c.side.nrFree == Dec32(Dec32(s.nrFree)) && (c.side.nrFree + 2) % U32_RANGE == s.nrFree
  {
  }

  /** When the VFS has no inode to give, the bit claimed by the scan stays
      set and the count stays lowered, though no record was written. */
  lemma NewInodeLeaks(s: InodeSide, mode: nat, uid: nat, gid: nat)
    requires WfInodeSide(s)
    ensures var c := NewInodeSpec(s, mode, uid, gid, false);
      c.ret == -ENOMEM ==>
        && c.side.table == s.table
        && (exists x :: 1 <= x < INODE_COUNT && !s.bitmap[x] && c.side.bitmap == s.bitmap[x := true])
        && (c.side.nrFree + 1) % U32_RANGE == s.nrFree
  {
    var c := NewInodeSpec(s, mode, uid, gid, false);
    if c.ret == -ENOMEM {
      var r := AllocSpec(s.bitmap, 1, INODE_COUNT, s.nrFree);
      assert c.side.bitmap == s.bitmap[r.no := true];
    }
  }

  /** Return code, the directory's new record and the new disk state. */
  datatype Added = Added(ret: int, node: Inode, disk: Disk)

  /** Entry insertion proper, once the directory has its block: -ENOSPC
      when all MAX_DIR_ENTRIES entries are in use (checked first), -EEXIST
      when the name is already there, otherwise entry `count` is written and
      the size grows by one entry. */
  function InsertEntry(n: Inode, dk: Disk, ino: nat, name: seq<byte>): (a: Added)
    requires DirOk(n) && WfDisk(dk) && ino < U32_RANGE && |name| <= MAX_FILENAME_LEN
    ensures DirOk(a.node) && WfDisk(a.disk) && a.disk.bitmap == dk.bitmap && a.disk.nrFree == dk.nrFree
  {
    var count := EntryCount(n);
    var b := DirBlock(n, dk.data);
    if count >= MAX_DIR_ENTRIES then Added(-ENOSPC, n, dk)
    else if FindEntry(b, count, name).Some? then Added(-EEXIST, n, dk)
    else
      var n' := n.(size := n.size + DIR_ENTRY_SIZE);
      EntryCountGrows(n.size);
      DirEntryLayout();
      Added(0, n', dk.(data := dk.data[n.iBlock[0] := PutEntry(b, count, name, ino)]))
  }

  /** `osfs_add_dir_entry`: a directory without blocks first gets one
      (`i_block[0]`, `i_blocks` 1, zeroed), which stays even when the
      insertion then fails; then the insertion. */
  function AddDirEntrySpec(n: Inode, dk: Disk, ino: nat, name: seq<byte>): (a: Added)
    requires DirOk(n) && WfDisk(dk) && ino < U32_RANGE && |name| <= MAX_FILENAME_LEN
    ensures DirOk(a.node) && WfDisk(a.disk) && |a.disk.bitmap| == |dk.bitmap|
    ensures a.ret == 0 || a.ret == -ENOSPC || a.ret == -EEXIST
  {
    if n.blocks == 0 then
      match Take(dk)
      case NoSpace => Added(-ENOSPC, n, dk)
      case Allocated(v, bm, nf) =>
        InsertEntry(n.(iBlock := n.iBlock[0 := v], blocks := 1), Disk(bm, nf, ZeroBlock(dk.data, v)), ino, name)
    else InsertEntry(n, dk, ino, name)
  }

  /** A full directory refuses any name with -ENOSPC, whether or not the
      name is already there, and keeps its size and its entry block. */
  lemma FullBeforeDuplicate(n: Inode, dk: Disk, ino: nat, name: seq<byte>)
    requires DirOk(n) && WfDisk(dk) && ino < U32_RANGE && |name| <= MAX_FILENAME_LEN
    requires EntryCount(n) >= MAX_DIR_ENTRIES
    ensures var a := AddDirEntrySpec(n, dk, ino, name);
      a.ret == -ENOSPC && a.node.size == n.size
      && (n.blocks != 0 ==> a.node == n && a.disk == dk)
  {
  }

  /** A failed insertion into a directory that had a block changes nothing;
      one into a directory without blocks leaves the block it allocated
      linked, counted, zeroed and marked in use. */
  lemma FailedAddKeeps(n: Inode, dk: Disk, ino: nat, name: seq<byte>)
    requires DirOk(n) && WfDisk(dk) && ino < U32_RANGE && |name| <= MAX_FILENAME_LEN
    ensures var a := AddDirEntrySpec(n, dk, ino, name);
      && (a.ret != 0 && n.blocks != 0 ==> a.node == n && a.disk == dk)
      && (a.ret != 0 && n.blocks == 0 && Take(dk).Allocated? ==>
            var v := Take(dk).no;
            && a.node == n.(iBlock := n.iBlock[0 := v], blocks := 1)
            && a.disk == Disk(dk.bitmap[v := true], Dec32(dk.nrFree), ZeroBlock(dk.data, v)))
  {
  }

  /** Every entry of a block of zeros is terminated (its name is empty). */
  lemma ZeroTerminated(count: nat)
    requires count <= MAX_DIR_ENTRIES
    ensures WfDir(ZeroedBlock(), count) && Terminated(ZeroedBlock(), count)
  {
    DirEntryLayout();
    forall i | 0 <= i < count
      ensures CStrLen(ZeroedBlock(), EntryOffset(i)) == 0
    {
      EntryInBlock(i);
    }
  }

  /** A successful insertion of a name without NUL bytes: the size grows by
      one entry, lookup of that name gives the new inode number, and, in a
      directory that already had its block, every other name looks up as
      before. */
  lemma AddThenLookup(n: Inode, dk: Disk, ino: nat, name: seq<byte>)
    requires DirOk(n) && WfDisk(dk) && ino < U32_RANGE && |name| <= MAX_FILENAME_LEN && NoNul(name)
    requires n.blocks != 0 ==> Terminated(DirBlock(n, dk.data), EntryCount(n))
    ensures var a := AddDirEntrySpec(n, dk, ino, name);
      a.ret == 0 ==>
        && a.node.size == n.size + DIR_ENTRY_SIZE
        && LookupSpec(a.node, a.disk.data, name) == Some(ino)
        && Terminated(DirBlock(a.node, a.disk.data), EntryCount(a.node))
        && (n.blocks != 0 ==> Inserted(n, dk.data, a.node, a.disk.data, ino, name))
  {
    var a := AddDirEntrySpec(n, dk, ino, name);
    if n.blocks == 0 {
      match Take(dk)
      case NoSpace =>
      case Allocated(v, bm, nf) =>
        var m := n.(iBlock := n.iBlock[0 := v], blocks := 1);
        ZeroTerminated(EntryCount(m));
        InsertThenLookup(m, Disk(bm, nf, ZeroBlock(dk.data, v)), ino, name);
    } else {
      InsertThenLookup(n, dk, ino, name);
    }
  }

  /** Directory n' on data d' is directory n on data d with `name`
      added for `ino`: one entry more, the same block, the name found with
      that number, every entry terminated, every other name found as
      before. */
  ghost predicate Inserted(n: Inode, d: seq<Block>, n': Inode, d': seq<Block>, ino: nat, name: seq<byte>)
  {
    && DirOk(n) && DirOk(n') && WfBlocks(d) && WfBlocks(d')
    && n'.size == n.size + DIR_ENTRY_SIZE && n'.iBlock == n.iBlock
    && LookupSpec(n', d', name) == Some(ino)
    && Terminated(DirBlock(n', d'), EntryCount(n'))
    && forall other :: other != name ==> LookupSpec(n', d', other) == LookupSpec(n, d, other)
  }

  lemma InsertThenLookup(n: Inode, dk: Disk, ino: nat, name: seq<byte>)
    requires DirOk(n) && WfDisk(dk) && ino < U32_RANGE && |name| <= MAX_FILENAME_LEN && NoNul(name)
    requires Terminated(DirBlock(n, dk.data), EntryCount(n))
    ensures var a := InsertEntry(n, dk, ino, name);
      a.ret == 0 ==> Inserted(n, dk.data, a.node, a.disk.data, ino, name)
  {
    var count := EntryCount(n);
    var b := DirBlock(n, dk.data);
    if count < MAX_DIR_ENTRIES && FindEntry(b, count, name).None? {
      var r := PutEntry(b, count, name, ino);
      var n' := n.(size := n.size + DIR_ENTRY_SIZE);
      var d' := dk.data[n.iBlock[0] := r];
      assert InsertEntry(n, dk, ino, name) == Added(0, n', dk.(data := d'));
      InsertedAt(n, dk.data, ino, name, b, r, n', d');
    }
  }

  /** InsertThenLookup for the directory and blocks the insertion leaves. */
  lemma InsertedAt(n: Inode, d: seq<Block>, ino: nat, name: seq<byte>, b: Block, r: Block, n': Inode, d': seq<Block>)
    requires DirOk(n) && WfBlocks(d) && ino < U32_RANGE && |name| <= MAX_FILENAME_LEN && NoNul(name)
    requires b == DirBlock(n, d) && Terminated(b, EntryCount(n))
    requires EntryCount(n) < MAX_DIR_ENTRIES && FindEntry(b, EntryCount(n), name).None?
    requires r == PutEntry(b, EntryCount(n), name, ino)
    requires n' == n.(size := n.size + DIR_ENTRY_SIZE) && d' == d[n.iBlock[0] := r]
    ensures Inserted(n, d, n', d', ino, name)
  {
    EntryCountGrows(n.size);
    assert EntryCount(n') == EntryCount(n) + 1;
    assert DirOk(n') && WfBlocks(d');
    assert DirBlock(n', d') == r;
    InsertedFound(n, n', d, d', b, r, ino, name);
  }

  /** Lookups in directory n' whose entry block r is b with entry
      `EntryCount(n)` appended for `name`. */
  lemma InsertedFound(n: Inode, n': Inode, d: seq<Block>, d': seq<Block>, b: Block, r: Block, ino: nat, name: seq<byte>)
    requires DirOk(n) && DirOk(n') && WfBlocks(d) && WfBlocks(d')
    requires b == DirBlock(n, d) && EntryCount(n) < MAX_DIR_ENTRIES && Terminated(b, EntryCount(n))
    requires NoNul(name) && |name| <= MAX_FILENAME_LEN && ino < U32_RANGE && FindEntry(b, EntryCount(n), name).None?
    requires EntryCount(n') == EntryCount(n) + 1 && DirBlock(n', d') == r && r == PutEntry(b, EntryCount(n), name, ino)
    ensures LookupSpec(n', d', name) == Some(ino) && Terminated(r, EntryCount(n'))
    ensures forall other :: other != name ==> LookupSpec(n', d', other) == LookupSpec(n, d, other)
  {
    AppendThenFind(b, EntryCount(n), name, ino);
    forall other | other != name
      ensures LookupSpec(n', d', other) == LookupSpec(n, d, other)
    {
      InsertLookupOther(n, n', d, d', r, other);
    }
  }

  /** One name other than the inserted one looks up as before. */
  lemma InsertLookupOther(n: Inode, n': Inode, d: seq<Block>, d': seq<Block>, r: Block, other: seq<byte>)
    requires DirOk(n) && DirOk(n') && WfBlocks(d) && WfBlocks(d')
    requires EntryCount(n') == EntryCount(n) + 1 && DirBlock(n', d') == r
    requires FindEntry(r, EntryCount(n) + 1, other) == FindEntry(DirBlock(n, d), EntryCount(n), other)
    requires forall j :: 0 <= j < EntryCount(n) ==> EntryIno(r, j) == EntryIno(DirBlock(n, d), j)
    ensures LookupSpec(n', d', other) == LookupSpec(n, d, other)
  {
  }

  /** Everything `osfs_create` reads and changes: the inode side and the
      block side. */
  datatype FsState = FsState(side: InodeSide, disk: Disk)

  predicate WfState(s: FsState)
  {
    WfInodeSide(s.side) && WfDisk(s.disk)
  }

  /** Return code, the number of the inode `osfs_new_inode` made (0 when
      it failed), and the new state. */
  datatype Creation = Creation(ret: int, ino: nat, state: FsState)

  /** `osfs_create` in directory `dir`: a name longer than MAX_FILENAME_LEN
      is refused before anything is allocated; then `osfs_new_inode`, whose
      error is returned; then `osfs_add_dir_entry`, whose error is returned
      with the new inode left allocated. */
  function CreateSpec(s: FsState, dir: nat, name: seq<byte>, mode: nat, uid: nat, gid: nat, vfsOk: bool): (c: Creation)
    requires WfState(s) && dir < INODE_COUNT && DirOk(s.side.table[dir])
    ensures WfState(c.state) && |c.state.side.bitmap| == |s.side.bitmap|
  {
    if |name| > MAX_FILENAME_LEN then Creation(-ENAMETOOLONG, 0, s)
    else
      var c := NewInodeSpec(s.side, mode, uid, gid, vfsOk);
      if c.ret != 0 then Creation(c.ret, 0, s.(side := c.side))
      else
        var a := AddDirEntrySpec(c.side.table[dir], s.disk, c.ino, name);
        Creation(a.ret, c.ino, FsState(c.side.(table := c.side.table[dir := a.node]), a.disk))
  }

  /** -ENAMETOOLONG is returned exactly for names longer than
      MAX_FILENAME_LEN (a 255-byte name passes), and then nothing changes. */
  lemma CreateChecksName(s: FsState, dir: nat, name: seq<byte>, mode: nat, uid: nat, gid: nat, vfsOk: bool)
    requires WfState(s) && dir < INODE_COUNT && DirOk(s.side.table[dir])
    ensures var c := CreateSpec(s, dir, name, mode, uid, gid, vfsOk);
      && (c.ret == -ENAMETOOLONG <==> |name| > MAX_FILENAME_LEN)
      && (c.ret == -ENAMETOOLONG ==> c.state == s)
  {
  }

  /** A successful create is a successful `osfs_new_inode` followed by a
      successful `osfs_add_dir_entry` of its number. */
  lemma CreateSucceeded(s: FsState, dir: nat, name: seq<byte>, mode: nat, uid: nat, gid: nat, vfsOk: bool)
    requires WfState(s) && dir < INODE_COUNT && DirOk(s.side.table[dir])
    ensures var c := CreateSpec(s, dir, name, mode, uid, gid, vfsOk);
      var n := NewInodeSpec(s.side, mode, uid, gid, vfsOk);
      c.ret == 0 ==>
        && |name| <= MAX_FILENAME_LEN && n.ret == 0 && c.ino == n.ino
        && var a := AddDirEntrySpec(n.side.table[dir], s.disk, n.ino, name);
        && a.ret == 0 && c.state.disk == a.disk
        && c.state.side == n.side.(table := n.side.table[dir := a.node])
  {
  }

  /** A successful create in a directory whose inode is in use, for a name
      without NUL bytes: the new inode is one that was free, its record is
      fresh, its bit is set, the free count is two lower, and looking the
      name up in the directory gives the new inode. */
  lemma CreateThenLookup(s: FsState, dir: nat, name: seq<byte>, mode: nat, uid: nat, gid: nat, vfsOk: bool)
    requires WfState(s) && dir < INODE_COUNT && DirOk(s.side.table[dir]) && s.side.bitmap[dir]
    requires NoNul(name)
    requires s.side.table[dir].blocks != 0 ==> Terminated(DirBlock(s.side.table[dir], s.disk.data), EntryCount(s.side.table[dir]))
    ensures var c := CreateSpec(s, dir, name, mode, uid, gid, vfsOk);
      c.ret == 0 ==>
        && 0 < c.ino < INODE_COUNT && c.ino != dir && !s.side.bitmap[c.ino] && c.state.side.bitmap[c.ino]
        && c.state.side.table[c.ino] == FreshInode(c.ino, mode, uid, gid)
        && c.state.side.nrFree == Dec32(Dec32(s.side.nrFree))
        && LookupSpec(c.state.side.table[dir], c.state.disk.data, name) == Some(c.ino)
  {
    var c := CreateSpec(s, dir, name, mode, uid, gid, vfsOk);
    CreateSucceeded(s, dir, name, mode, uid, gid, vfsOk);
    NewInodeCountsTwice(s.side, mode, uid, gid, vfsOk);
    var n := NewInodeSpec(s.side, mode, uid, gid, vfsOk);
    if c.ret == 0 {
      assert n.ret == 0 && c.ino == n.ino && n.ino != dir;
      assert n.side.table[dir] == s.side.table[dir];
      AddThenLookup(s.side.table[dir], s.disk, n.ino, name);
      var a := AddDirEntrySpec(s.side.table[dir], s.disk, n.ino, name);
      assert c.state.side.table[dir] == a.node && c.state.disk == a.disk;
      assert c.state.side.table[c.ino] == n.side.table[c.ino];
    }
  }

  /** When the entry cannot be added (directory full, name taken, or no
      block for an empty directory), the inode `osfs_new_inode` made stays
      allocated and counted twice, though no entry names it. */
  lemma CreateLeaksInode(s: FsState, dir: nat, name: seq<byte>, mode: nat, uid: nat, gid: nat)
    requires WfState(s) && dir < INODE_COUNT && DirOk(s.side.table[dir])
    ensures var c := CreateSpec(s, dir, name, mode, uid, gid, true);
      c.ret != 0 && c.ino != 0 ==>
        && (c.ret == -ENOSPC || c.ret == -EEXIST)
        && !s.side.bitmap[c.ino] && c.state.side.bitmap[c.ino]
        && c.state.side.nrFree == Dec32(Dec32(s.side.nrFree))
  {
    var c := CreateSpec(s, dir, name, mode, uid, gid, true);
    if c.ret != 0 && c.ino != 0 {
      NewInodeCountsTwice(s.side, mode, uid, gid, true);
    }
  }
}
