/** `osfs_get_block` keeps an inode's pointer graph sound (every reached
    block in range, marked and reached once), never moves or overwrites a
    block that was already reached, and returns a block that no other
    position reaches. */
module GetBlockSound {
  import opened Layout
  import opened Alloc
  import opened Blocks
  import opened PointerMap
  import opened GraphFrames
  import opened GetBlock

  ghost predicate SoundDisk(n: Inode, dk: Disk)
  {
    WfDisk(dk) && Sound(n, dk.bitmap, dk.data)
  }

  /** The new state is sound, and nothing reached before moved or changed. */
  ghost predicate Evolves(n: Inode, dk: Disk, r: Resolution)
  {
    && SoundDisk(r.node, r.disk) && WfInode(n)
    && Grows(n, dk.data, r.node, r.disk.data) && LeavesKept(n, dk.data, r.disk.data)
    && (forall x :: 0 <= x < |dk.bitmap| && dk.bitmap[x] ==> x < |r.disk.bitmap| && r.disk.bitmap[x])
  }

  /** A returned block is reached from no position other than `leaf`. */
  ghost predicate ServesOnly(r: Resolution, leaf: Pos)
  {
    r.ret == 0 && r.phys != 0 ==>
      WfInode(r.node) && r.phys < DATA_BLOCK_COUNT
      && forall p :: ValidPos(p) && p != leaf ==> At(r.node, r.disk.data, p) != r.phys
  }

  lemma DirectStepSound(n: Inode, dk: Disk, k: nat, create: bool)
    requires SoundDisk(n, dk) && k < N_DIRECT
    ensures var r := DirectStep(n, dk, k, create);
      && Evolves(n, dk, r) && ServesOnly(r, Direct(k))
      && (create && dk.bitmap[0] && r.ret == 0 ==> r.phys != 0 && At(r.node, r.disk.data, Direct(k)) == r.phys)
  {
    var r := DirectStep(n, dk, k, create);
    assert SlotPos(k) == Direct(k);
    if n.iBlock[k] == 0 && create {
      match Take(dk)
      case NoSpace =>
      case Allocated(v, bm, nf) =>
        FreeIsUnreached(n, dk.bitmap, dk.data, v);
        MarkKeepsSound(n, dk.bitmap, dk.data, v);
        LinkSlot(n, r.node, bm, dk.data, k, v);
    } else {
      assert At(n, dk.data, Direct(k)) == n.iBlock[k];
    }
  }

  /** EnsureSlot leaves a marked block in the slot; a 0 there is block 0,
      just allocated and zeroed. */
  lemma EnsureSlotSound(n: Inode, dk: Disk, k: nat, create: bool)
    requires SoundDisk(n, dk) && (k == IND_SLOT || k == DIND_SLOT) && n.iBlock[k] < DATA_BLOCK_COUNT
    ensures var r := EnsureSlot(n, dk, k, create);
      && Evolves(n, dk, r)
      && (r.ret == 0 ==> r.disk.bitmap[r.node.iBlock[k]])
      && (r.ret == 0 && r.node.iBlock[k] == 0 ==> forall i: nat :: Word(r.disk.data, 0, i) == 0)
      && (dk.bitmap[0] && r.ret == 0 ==> r.node.iBlock[k] != 0)
  {
    assert ValidPos(SlotPos(k)) && At(n, dk.data, SlotPos(k)) == n.iBlock[k];
    var r := EnsureSlot(n, dk, k, create);
    if n.iBlock[k] == 0 && create {
      match Take(dk)
      case NoSpace =>
      case Allocated(v, bm, nf) =>
        FreeIsUnreached(n, dk.bitmap, dk.data, v);
        MarkKeepsSound(n, dk.bitmap, dk.data, v);
        var z := ZeroBlock(dk.data, v);
        ChangeUnreached(n, bm, dk.data, z, v);
        assert Unreached(n, z, v);
        LinkSlot(n, r.node, bm, z, k, v);
        GrowsTrans(n, dk.data, n, z, r.node, z);
    }
  }

  /** What EnsureMid leaves behind: a sound state in which pointer i of
      `top` names a marked block that is either reached at Mid(i), or
      reached from nowhere and all zero. */
  ghost predicate MidReady(n: Inode, dk: Disk, r: Resolution, top: nat, i: nat)
  {
    && SoundDisk(n, dk) && Evolves(n, dk, r) && r.node.iBlock == n.iBlock
    && (r.ret == 0 ==>
          var mid := Word(r.disk.data, top, i);
          && mid < DATA_BLOCK_COUNT && r.disk.bitmap[mid]
          && ((mid != 0 && At(r.node, r.disk.data, Mid(i)) == mid)
              || (Unreached(r.node, r.disk.data, mid) && forall j: nat :: Word(r.disk.data, mid, j) == 0)))
    && (dk.bitmap[0] && top != 0 && r.ret == 0 ==>
          Word(r.disk.data, top, i) != 0 && At(r.node, r.disk.data, Mid(i)) == Word(r.disk.data, top, i))
  }

  /** A fresh mid-level block hung under a live top-level block. */
  lemma MidLinkLive(n: Inode, dk: Disk, top: nat, i: nat, v: nat, bm: seq<bool>, nf: nat)
    requires SoundDisk(n, dk) && i < ADDR_PER_BLOCK
    requires top == n.iBlock[DIND_SLOT] && 0 < top < DATA_BLOCK_COUNT && Word(dk.data, top, i) == 0
    requires v < DATA_BLOCK_COUNT && !dk.bitmap[v] && bm == dk.bitmap[v := true] && nf < U32_RANGE
    ensures MidReady(n, dk, Resolution(0, 0, Counted(n), Disk(bm, nf, ZeroBlock(SetWord(dk.data, top, i, v), v))), top, i)
  {
    var d := dk.data;
    assert ValidPos(Top) && At(n, d, Top) == top;
    FreeIsUnreached(n, dk.bitmap, d, v);
    MarkKeepsSound(n, dk.bitmap, d, v);
    assert v != top;
    var z := ZeroBlock(d, v);
    ChangeUnreached(n, bm, d, z, v);
    ZeroSetWordCommute(d, v, top, i, v);
    var e := SetWord(z, top, i, v);
    LinkWord(n, bm, z, Top, i, v);
    GrowsTrans(n, d, n, z, n, e);
    assert Child(Top, i) == Mid(i);
    CountedKeeps(n, bm, e);
    var n' := Counted(n);
    assert Word(e, top, i) == v;
    assert e[v] == z[v];
    assert Grows(n, d, n', e);
  }

  /** A fresh mid-level block stored into block 0 while slot 13 is still 0:
      the pointer lands in a block nothing reaches. */
  lemma MidLinkDead(n: Inode, dk: Disk, i: nat, v: nat, bm: seq<bool>, nf: nat)
    requires SoundDisk(n, dk) && i < ADDR_PER_BLOCK
    requires n.iBlock[DIND_SLOT] == 0 && dk.bitmap[0]
    requires v < DATA_BLOCK_COUNT && !dk.bitmap[v] && bm == dk.bitmap[v := true] && nf < U32_RANGE
    ensures MidReady(n, dk, Resolution(0, 0, Counted(n), Disk(bm, nf, ZeroBlock(SetWord(dk.data, 0, i, v), v))), 0, i)
  {
    var d := dk.data;
    FreeIsUnreached(n, dk.bitmap, d, v);
    MarkKeepsSound(n, dk.bitmap, d, v);
    assert v != 0;
    var z := ZeroBlock(d, v);
    ChangeUnreached(n, bm, d, z, v);
    ZeroSetWordCommute(d, v, 0, i, v);
    var e := SetWord(z, 0, i, v);
    ChangeUnreached(n, bm, z, e, 0);
    GrowsTrans(n, d, n, z, n, e);
    CountedKeeps(n, bm, e);
    var n' := Counted(n);
    assert Word(e, 0, i) == v;
    assert e[v] == z[v];
    assert Grows(n, d, n', e);
    assert Unreached(n', e, v);
  }

  lemma EnsureMidSound(n: Inode, dk: Disk, top: nat, i: nat, create: bool)
    requires SoundDisk(n, dk) && i < ADDR_PER_BLOCK
    requires top == n.iBlock[DIND_SLOT] && top < DATA_BLOCK_COUNT && dk.bitmap[top]
    requires Word(dk.data, top, i) < DATA_BLOCK_COUNT
    requires top == 0 ==> forall i': nat :: Word(dk.data, 0, i') == 0
    ensures MidReady(n, dk, EnsureMid(n, dk, top, i, create), top, i)
  {
    assert ValidPos(Top) && At(n, dk.data, Top) == top;
    assert ValidPos(Mid(i));
    var w := Word(dk.data, top, i);
    if w != 0 {
      assert At(n, dk.data, Mid(i)) == w;
      Same(n, dk, 0, 0);
    } else if !create {
      Same(n, dk, -ENOENT, 0);
    } else {
      match Take(dk)
      case NoSpace =>
        Same(n, dk, -ENOSPC, 0);
      case Allocated(v, bm, nf) =>
        if top != 0 {
          MidLinkLive(n, dk, top, i, v, bm, nf);
        } else {
          MidLinkDead(n, dk, i, v, bm, nf);
        }
    }
  }

  lemma Same(n: Inode, dk: Disk, ret: int, phys: nat)
    requires SoundDisk(n, dk)
    ensures Evolves(n, dk, Resolution(ret, phys, n, dk))
  {
  }

  /** Counting a block in `i_blocks` leaves the pointer graph alone. */
  lemma CountedKeeps(n: Inode, bm: seq<bool>, d: seq<Block>)
    requires Sound(n, bm, d)
    ensures Sound(Counted(n), bm, d)
    ensures forall p :: ValidPos(p) ==> At(Counted(n), d, p) == At(n, d, p)
  {
    assert Counted(n).iBlock == n.iBlock;
  }

  /** A new data block stored into pointer j of the index block reached at q. */
  lemma LeafLinkLive(n: Inode, dk: Disk, q: Pos, j: nat, v: nat, bm: seq<bool>, nf: nat)
    requires SoundDisk(n, dk) && ValidPos(q) && IsIndexPos(q) && !q.Top? && At(n, dk.data, q) != 0
    requires j < ADDR_PER_BLOCK && Word(dk.data, At(n, dk.data, q), j) == 0
    requires v < DATA_BLOCK_COUNT && !dk.bitmap[v] && bm == dk.bitmap[v := true] && nf < U32_RANGE
    ensures var r := Resolution(0, v, Counted(n), Disk(bm, nf, SetWord(dk.data, At(n, dk.data, q), j, v)));
      Evolves(n, dk, r) && ServesOnly(r, Child(q, j)) && (v != 0 ==> At(r.node, r.disk.data, Child(q, j)) == v)
  {
    var d := dk.data;
    var e := SetWord(d, At(n, d, q), j, v);
    FreeIsUnreached(n, dk.bitmap, d, v);
    MarkKeepsSound(n, dk.bitmap, d, v);
    LinkWord(n, bm, d, q, j, v);
    CountedKeeps(n, bm, e);
    var n' := Counted(n);
    assert Grows(n, d, n', e);
    assert ServesOnly(Resolution(0, v, n', Disk(bm, nf, e)), Child(q, j)) by {
      forall p | ValidPos(p) && p != Child(q, j) && v != 0
        ensures At(n', e, p) != v
      {
        assert At(n', e, p) == At(n, d, p);
      }
    }
  }

  /** A new data block stored into a block no position reaches. */
  lemma LeafLinkDead(n: Inode, dk: Disk, parent: nat, j: nat, v: nat, bm: seq<bool>, nf: nat, leaf: Pos)
    requires SoundDisk(n, dk) && parent < DATA_BLOCK_COUNT && Unreached(n, dk.data, parent)
    requires j < ADDR_PER_BLOCK
    requires v < DATA_BLOCK_COUNT && !dk.bitmap[v] && bm == dk.bitmap[v := true] && nf < U32_RANGE
    ensures var r := Resolution(0, v, Counted(n), Disk(bm, nf, SetWord(dk.data, parent, j, v)));
      Evolves(n, dk, r) && ServesOnly(r, leaf)
  {
    var d := dk.data;
    var e := SetWord(d, parent, j, v);
    FreeIsUnreached(n, dk.bitmap, d, v);
    MarkKeepsSound(n, dk.bitmap, d, v);
    ChangeUnreached(n, bm, d, e, parent);
    CountedKeeps(n, bm, e);
    var n' := Counted(n);
    assert Grows(n, d, n', e);
    assert ServesOnly(Resolution(0, v, n', Disk(bm, nf, e)), leaf) by {
      forall p | ValidPos(p) && v != 0
        ensures At(n', e, p) != v
      {
        assert At(n', e, p) == At(n, d, p);
      }
    }
  }

  /** The leaf step under a parent index block that is either reached at q or
      reached from nowhere (and then still zero at pointer j). */
  lemma LeafStepSound(n: Inode, dk: Disk, q: Pos, parent: nat, j: nat, create: bool)
    requires SoundDisk(n, dk) && ValidPos(q) && IsIndexPos(q) && !q.Top?
    requires parent < DATA_BLOCK_COUNT && j < ADDR_PER_BLOCK && dk.bitmap[parent]
    requires (parent != 0 && At(n, dk.data, q) == parent)
          || (Unreached(n, dk.data, parent) && Word(dk.data, parent, j) == 0)
    ensures var r := LeafStep(n, dk, parent, j, create);
      && Evolves(n, dk, r) && ServesOnly(r, Child(q, j))
      && (create && dk.bitmap[0] && parent != 0 && At(n, dk.data, q) == parent && r.ret == 0 ==>
            r.phys != 0 && At(r.node, r.disk.data, Child(q, j)) == r.phys)
  {
    var r := LeafStep(n, dk, parent, j, create);
    var w := Word(dk.data, parent, j);
    var live := parent != 0 && At(n, dk.data, q) == parent;
    assert ValidPos(Child(q, j));
    if w == 0 && create {
      match Take(dk)
      case NoSpace =>
        Same(n, dk, -ENOSPC, 0);
      case Allocated(v, bm, nf) =>
        assert r == Resolution(0, v, Counted(n), Disk(bm, nf, SetWord(dk.data, parent, j, v)));
        if live {
          LeafLinkLive(n, dk, q, j, v, bm, nf);
        } else {
          LeafLinkDead(n, dk, parent, j, v, bm, nf, Child(q, j));
        }
    } else {
      Same(n, dk, 0, w);
      if live && w != 0 {
        assert At(n, dk.data, Child(q, j)) == w by {
          if q.Mid? {
            assert At(n, dk.data, Mid(q.i)) == parent;
          }
        }
      }
    }
  }

  lemma IndirectWalkSound(n: Inode, dk: Disk, j: nat, create: bool)
    requires SoundDisk(n, dk) && j < ADDR_PER_BLOCK
    ensures var r := IndirectWalk(n, dk, j, create);
      && Evolves(n, dk, r) && ServesOnly(r, IndLeaf(j))
      && (create && dk.bitmap[0] && r.ret == 0 ==> r.phys != 0 && At(r.node, r.disk.data, IndLeaf(j)) == r.phys)
  {
    assert At(n, dk.data, Ind) < DATA_BLOCK_COUNT;
    EnsureSlotSound(n, dk, IND_SLOT, create);
    var s := EnsureSlot(n, dk, IND_SLOT, create);
    if s.ret == 0 {
      var parent := s.node.iBlock[IND_SLOT];
      assert At(s.node, s.disk.data, Ind) == parent;
      LeafStepSound(s.node, s.disk, Ind, parent, j, create);
      var r := LeafStep(s.node, s.disk, parent, j, create);
      GrowsTrans(n, dk.data, s.node, s.disk.data, r.node, r.disk.data);
    }
  }

  lemma DoubleWalkSound(n: Inode, dk: Disk, i: nat, j: nat, create: bool)
    requires SoundDisk(n, dk) && i < ADDR_PER_BLOCK && j < ADDR_PER_BLOCK
    ensures var r := DoubleWalk(n, dk, i, j, create);
      && Evolves(n, dk, r) && ServesOnly(r, DLeaf(i, j))
      && (create && dk.bitmap[0] && r.ret == 0 ==> r.phys != 0 && At(r.node, r.disk.data, DLeaf(i, j)) == r.phys)
  {
    assert At(n, dk.data, Top) < DATA_BLOCK_COUNT;
    assert ValidPos(Mid(i)) && At(n, dk.data, Mid(i)) < DATA_BLOCK_COUNT;
    EnsureSlotSound(n, dk, DIND_SLOT, create);
    var s := EnsureSlot(n, dk, DIND_SLOT, create);
    if s.ret == 0 {
      var top := s.node.iBlock[DIND_SLOT];
      EnsureMidSound(s.node, s.disk, top, i, create);
      var t := EnsureMid(s.node, s.disk, top, i, create);
      GrowsTrans(n, dk.data, s.node, s.disk.data, t.node, t.disk.data);
      if t.ret == 0 {
        var mid := Word(t.disk.data, top, i);
        assert ValidPos(Mid(i));
        LeafStepSound(t.node, t.disk, Mid(i), mid, j, create);
        var r := LeafStep(t.node, t.disk, mid, j, create);
        GrowsTrans(n, dk.data, t.node, t.disk.data, r.node, r.disk.data);
        assert Child(Mid(i), j) == DLeaf(i, j);
      }
    }
  }

  /** `osfs_get_block` keeps the graph sound and never moves or overwrites a
      reached block; the block it returns is reached from no other position;
      once block 0 is in use, a successful call with create returns a
      nonzero block now reached at the leaf position of b. */
  lemma ResolveSound(n: Inode, dk: Disk, b: nat, create: bool)
    requires SoundDisk(n, dk)
    ensures var r := Resolve(n, dk, b, create);
      && Evolves(n, dk, r)
      && (r.ret == 0 ==> b < MAX_LOGICAL)
      && (b < MAX_LOGICAL ==> ServesOnly(r, LeafPos(b)))
      && (create && dk.bitmap[0] && r.ret == 0 ==>
            b < MAX_LOGICAL && r.phys != 0 && At(r.node, r.disk.data, LeafPos(b)) == r.phys)
  {
    if b < MAX_LOGICAL {
      ResolveSoundIn(n, dk, b, create);
    } else {
      assert Resolve(n, dk, b, create) == Resolution(-EFBIG, 0, n, dk);
      Same(n, dk, -EFBIG, 0);
    }
  }

  lemma ResolveSoundIn(n: Inode, dk: Disk, b: nat, create: bool)
    requires SoundDisk(n, dk) && b < MAX_LOGICAL
    ensures var r := Resolve(n, dk, b, create);
      && Evolves(n, dk, r) && ServesOnly(r, LeafPos(b))
      && (create && dk.bitmap[0] && r.ret == 0 ==> r.phys != 0 && At(r.node, r.disk.data, LeafPos(b)) == r.phys)
  {
    if b < N_DIRECT {
      ResolveSoundDirect(n, dk, b, create);
    } else if b < N_DIRECT + ADDR_PER_BLOCK {
      ResolveSoundIndirect(n, dk, b, create);
    } else {
      ResolveSoundDouble(n, dk, b, create);
    }
  }

  lemma ResolveSoundDirect(n: Inode, dk: Disk, b: nat, create: bool)
    requires SoundDisk(n, dk) && b < N_DIRECT
    ensures var r := Resolve(n, dk, b, create);
      && Evolves(n, dk, r) && ServesOnly(r, LeafPos(b))
      && (create && dk.bitmap[0] && r.ret == 0 ==> r.phys != 0 && At(r.node, r.disk.data, LeafPos(b)) == r.phys)
  {
    var r := Resolve(n, dk, b, create);
    assert r == DirectStep(n, dk, b, create);
    assert LeafPos(b) == Direct(b);
    DirectStepSound(n, dk, b, create);
  }

  lemma ResolveSoundIndirect(n: Inode, dk: Disk, b: nat, create: bool)
    requires SoundDisk(n, dk) && N_DIRECT <= b < N_DIRECT + ADDR_PER_BLOCK
    ensures var r := Resolve(n, dk, b, create);
      && Evolves(n, dk, r) && ServesOnly(r, LeafPos(b))
      && (create && dk.bitmap[0] && r.ret == 0 ==> r.phys != 0 && At(r.node, r.disk.data, LeafPos(b)) == r.phys)
  {
    var j := b - N_DIRECT;
    IndirectWalkSound(n, dk, j, create);
    assert LeafPos(b) == IndLeaf(j);
    assert Resolve(n, dk, b, create) == IndirectWalk(n, dk, j, create);
  }

  lemma ResolveSoundDouble(n: Inode, dk: Disk, b: nat, create: bool)
    requires SoundDisk(n, dk) && N_DIRECT + ADDR_PER_BLOCK <= b < MAX_LOGICAL
    ensures var r := Resolve(n, dk, b, create);
      && Evolves(n, dk, r) && ServesOnly(r, LeafPos(b))
      && (create && dk.bitmap[0] && r.ret == 0 ==> r.phys != 0 && At(r.node, r.disk.data, LeafPos(b)) == r.phys)
  {
    AddressableRange();
    var x := b - N_DIRECT - ADDR_PER_BLOCK;
    var i, j := x / ADDR_PER_BLOCK, x % ADDR_PER_BLOCK;
    assert i < ADDR_PER_BLOCK && j < ADDR_PER_BLOCK;
    DoubleWalkSound(n, dk, i, j, create);
    assert Resolve(n, dk, b, create) == DoubleWalk(n, dk, i, j, create);
    assert LeafPos(b) == DLeaf(i, j);
  }

  /** Without create, `osfs_get_block` changes nothing and reports the block
      reached at the leaf position of b: -EFBIG beyond the addressable range,
      -ENOENT exactly when an index block on the way is missing (slot 12 for
      the single-indirect range; slot 13 or its pointer for the
      double-indirect range; never for a direct block), and 0 with the block
      (0 for a hole) otherwise. */
  lemma ResolveReadOnly(n: Inode, dk: Disk, b: nat)
    requires InRange(n, dk.data) && WfDisk(dk)
    ensures var r := Resolve(n, dk, b, false);
      && r.node == n && r.disk == dk
      && (r.ret == -EFBIG <==> b >= MAX_LOGICAL)
      && (r.ret == 0 || r.ret == -EFBIG || r.ret == -ENOENT)
      && (b < MAX_LOGICAL ==>
            && (r.ret == 0 ==> r.phys == At(n, dk.data, LeafPos(b)))
            && (r.ret == -ENOENT ==> r.phys == 0 && At(n, dk.data, LeafPos(b)) == 0))
      && (b < N_DIRECT ==> r.ret == 0)
      && (N_DIRECT <= b < N_DIRECT + ADDR_PER_BLOCK ==> (r.ret == -ENOENT <==> n.iBlock[IND_SLOT] == 0))
      && (N_DIRECT + ADDR_PER_BLOCK <= b < MAX_LOGICAL ==>
            var i := (b - N_DIRECT - ADDR_PER_BLOCK) / ADDR_PER_BLOCK;
            (r.ret == -ENOENT <==> n.iBlock[DIND_SLOT] == 0 || Word(dk.data, n.iBlock[DIND_SLOT], i) == 0))
  {
    assert ADDR_PER_BLOCK == 256 && N_DIRECT == 12 && MAX_LOGICAL == 12 + 256 + 65536;
    var d := dk.data;
    if b < N_DIRECT {
      assert LeafPos(b) == Direct(b);
    } else if b - N_DIRECT < ADDR_PER_BLOCK {
      assert LeafPos(b) == IndLeaf(b - N_DIRECT);
      assert ValidPos(Ind) && At(n, d, Ind) < DATA_BLOCK_COUNT;
    } else if b - N_DIRECT - ADDR_PER_BLOCK < ADDR_PER_BLOCK * ADDR_PER_BLOCK {
      var x := b - N_DIRECT - ADDR_PER_BLOCK;
      var i, j := x / 256, x % 256;
      assert i < 256 && j < 256;
      assert LeafPos(b) == DLeaf(i, j);
      assert ValidPos(Top) && ValidPos(Mid(i));
      assert At(n, d, Top) < DATA_BLOCK_COUNT && At(n, d, Mid(i)) < DATA_BLOCK_COUNT;
      assert Resolve(n, dk, b, false) == DoubleWalk(n, dk, i, j, false);
    }
  }

  /** Block 0 is both a usable data block and the "no block" marker: while
      it is free, the first allocation for an empty direct slot takes it,
      counts it in `i_blocks`, and leaves the slot reading as a hole. */
  lemma BlockZeroCollision(n: Inode, dk: Disk, k: nat)
    requires InRange(n, dk.data) && WfDisk(dk) && k < N_DIRECT && n.iBlock[k] == 0 && !dk.bitmap[0]
    ensures var r := Resolve(n, dk, k, true);
      && r.ret == 0 && r.phys == 0 && r.node.iBlock[k] == 0
      && r.disk.bitmap[0] && r.node.blocks == Inc32(n.blocks)
  {
    assert FirstClear(dk.bitmap, 0, DATA_BLOCK_COUNT) == Some(0);
  }

  /** `osfs_get_block` changes no field of the inode but its pointers and
      its block count: in particular the size stays. */
  lemma ResolveOnlyPointers(n: Inode, dk: Disk, b: nat, create: bool)
    requires InRange(n, dk.data) && WfDisk(dk)
    ensures OnlyPointers(n, Resolve(n, dk, b, create).node)
  {
    if b < N_DIRECT {
    } else if b - N_DIRECT < ADDR_PER_BLOCK {
      IndirectOnlyPointers(n, dk, b - N_DIRECT, create);
    } else if b - N_DIRECT - ADDR_PER_BLOCK < ADDR_PER_BLOCK * ADDR_PER_BLOCK {
      var x := b - N_DIRECT - ADDR_PER_BLOCK;
      DoubleOnlyPointers(n, dk, x / ADDR_PER_BLOCK, x % ADDR_PER_BLOCK, create);
    }
  }

  lemma IndirectOnlyPointers(n: Inode, dk: Disk, j: nat, create: bool)
    requires InRange(n, dk.data) && WfDisk(dk) && j < ADDR_PER_BLOCK
    ensures OnlyPointers(n, IndirectWalk(n, dk, j, create).node)
  {
    assert At(n, dk.data, Ind) < DATA_BLOCK_COUNT;
    var s := EnsureSlot(n, dk, IND_SLOT, create);
    assert OnlyPointers(n, s.node);
  }

  lemma DoubleOnlyPointers(n: Inode, dk: Disk, i: nat, j: nat, create: bool)
    requires InRange(n, dk.data) && WfDisk(dk) && i < ADDR_PER_BLOCK && j < ADDR_PER_BLOCK
    ensures OnlyPointers(n, DoubleWalk(n, dk, i, j, create).node)
  {
    assert At(n, dk.data, Top) < DATA_BLOCK_COUNT;
    assert At(n, dk.data, Mid(i)) < DATA_BLOCK_COUNT;
    var s := EnsureSlot(n, dk, DIND_SLOT, create);
    assert OnlyPointers(n, s.node);
    if s.ret == 0 {
      var t := EnsureMid(s.node, s.disk, s.node.iBlock[DIND_SLOT], i, create);
      assert OnlyPointers(n, t.node);
    }
  }
}
