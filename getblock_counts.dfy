/** What `osfs_get_block` of the multi-level version does to the counters:
    every block it claims, data or index, is one bit newly set in the block
    bitmap, one `nr_free_blocks--` and one `i_blocks++`; a call that claims
    nothing changes nothing. Also: a block already present is returned as it
    is, so a second call for the same logical block claims nothing, and a
    claim that fails part way keeps the index blocks claimed before it. */
module GetBlockCounts {
  import opened Layout
  import opened Alloc
  import opened Blocks
  import opened PointerMap
  import opened GetBlock
  import opened GetBlockSound

  /** The number of data-zone bits set in dk' that are clear in dk. */
  function Claimed(dk: Disk, dk': Disk): int
    requires |dk.bitmap| >= DATA_BLOCK_COUNT && |dk'.bitmap| >= DATA_BLOCK_COUNT
  {
    CountClear(dk.bitmap, 0, DATA_BLOCK_COUNT) - CountClear(dk'.bitmap, 0, DATA_BLOCK_COUNT)
  }

  /** From (n, dk) to (n', dk') k blocks were claimed: k more bits of the zone
      are set and none cleared, `i_blocks` went up by k and `nr_free_blocks`
      down by k (as uint32_t), and with k = 0 nothing changed at all. */
  predicate Tally(n: Inode, dk: Disk, n': Inode, dk': Disk, k: nat)
    requires n.blocks < U32_RANGE && dk.nrFree < U32_RANGE
    requires |dk.bitmap| >= DATA_BLOCK_COUNT && |dk'.bitmap| >= DATA_BLOCK_COUNT
  {
    && OnlySets(dk.bitmap, dk'.bitmap)
    && Claimed(dk, dk') == k
    && n'.blocks == Inc32N(n.blocks, k) && dk'.nrFree == Dec32N(dk.nrFree, k)
    && (k == 0 ==> n' == n && dk' == dk)
  }

  /** bm' sets every bit bm sets, and differs from it only in the zone. */
  predicate OnlySets(bm: seq<bool>, bm': seq<bool>)
  {
    && |bm'| == |bm|
    && (forall x :: 0 <= x < |bm| && bm[x] ==> bm'[x])
    && (forall x :: DATA_BLOCK_COUNT <= x < |bm| ==> bm'[x] == bm[x])
  }

  /** One `osfs_alloc_data_block` followed by `i_blocks++`. */
  lemma TakeCounts(n: Inode, dk: Disk, n': Inode, dk': Disk)
    requires WfInode(n) && WfDisk(dk) && WfDisk(dk') && Take(dk).Allocated?
    requires n'.blocks == Inc32(n.blocks)
    requires dk'.bitmap == Take(dk).bitmap && dk'.nrFree == Take(dk).nrFree
    ensures Tally(n, dk, n', dk', 1)
  {
    SetOne(dk.bitmap, Take(dk).no);
    Once32(n.blocks);
    Once32(dk.nrFree);
  }

  /** Setting one clear bit of the zone claims exactly that one block. */
  lemma SetOne(bm: seq<bool>, v: nat)
    requires v < DATA_BLOCK_COUNT <= |bm| && !bm[v]
    ensures OnlySets(bm, bm[v := true])
    ensures CountClear(bm, 0, DATA_BLOCK_COUNT) - CountClear(bm[v := true], 0, DATA_BLOCK_COUNT) == 1
  {
    SetOneMarks(bm, v);
    CountClearSet(bm, 0, DATA_BLOCK_COUNT, v);
  }

  /** Setting one bit of the zone sets and clears nothing else. */
  lemma SetOneMarks(bm: seq<bool>, v: nat)
    requires v < DATA_BLOCK_COUNT <= |bm|
    ensures OnlySets(bm, bm[v := true])
  {
  }

  /** The claims of two calls in a row add up. */
  lemma TallyTrans(n1: Inode, d1: Disk, n2: Inode, d2: Disk, n3: Inode, d3: Disk)
    requires WfInode(n1) && WfInode(n2) && WfDisk(d1) && WfDisk(d2) && WfDisk(d3)
    requires 0 <= Claimed(d1, d2) && Tally(n1, d1, n2, d2, Claimed(d1, d2))
    requires 0 <= Claimed(d2, d3) && Tally(n2, d2, n3, d3, Claimed(d2, d3))
    ensures Claimed(d1, d3) == Claimed(d1, d2) + Claimed(d2, d3)
    ensures Tally(n1, d1, n3, d3, Claimed(d1, d3))
  {
    Inc32NAdd(n1.blocks, Claimed(d1, d2), Claimed(d2, d3));
    Dec32NAdd(d1.nrFree, Claimed(d1, d2), Claimed(d2, d3));
  }

  /** A direct slot claims at most one block, and none without create. */
  lemma DirectStepCounts(n: Inode, dk: Disk, k: nat, create: bool)
    requires WfInode(n) && WfDisk(dk) && k < N_DIRECT
    ensures var r := DirectStep(n, dk, k, create);
      && 0 <= Claimed(dk, r.disk) <= 1 && Tally(n, dk, r.node, r.disk, Claimed(dk, r.disk))
      && (!create ==> Claimed(dk, r.disk) == 0)
  {
    var r := DirectStep(n, dk, k, create);
    if n.iBlock[k] == 0 && create && Take(dk).Allocated? {
      TakeCounts(n, dk, r.node, r.disk);
    }
  }

  /** Filling slot 12 or 13 claims at most one index block. */
  lemma EnsureSlotCounts(n: Inode, dk: Disk, k: nat, create: bool)
    requires WfInode(n) && WfDisk(dk) && (k == IND_SLOT || k == DIND_SLOT) && n.iBlock[k] < DATA_BLOCK_COUNT
    ensures var r := EnsureSlot(n, dk, k, create);
      && 0 <= Claimed(dk, r.disk) <= 1 && Tally(n, dk, r.node, r.disk, Claimed(dk, r.disk))
      && (!create ==> Claimed(dk, r.disk) == 0)
  {
    var r := EnsureSlot(n, dk, k, create);
    if n.iBlock[k] == 0 && create && Take(dk).Allocated? {
      TakeCounts(n, dk, r.node, r.disk);
    }
  }

  /** Filling pointer i of the top block claims at most one index block. */
  lemma EnsureMidCounts(n: Inode, dk: Disk, top: nat, i: nat, create: bool)
    requires WfInode(n) && WfDisk(dk) && top < DATA_BLOCK_COUNT && i < ADDR_PER_BLOCK
    requires Word(dk.data, top, i) < DATA_BLOCK_COUNT
    ensures var r := EnsureMid(n, dk, top, i, create);
      && 0 <= Claimed(dk, r.disk) <= 1 && Tally(n, dk, r.node, r.disk, Claimed(dk, r.disk))
      && (!create ==> Claimed(dk, r.disk) == 0)
  {
    var r := EnsureMid(n, dk, top, i, create);
    if Word(dk.data, top, i) == 0 && create && Take(dk).Allocated? {
      TakeCounts(n, dk, r.node, r.disk);
    }
  }

  /** Filling pointer j of an index block claims at most one data block. */
  lemma LeafStepCounts(n: Inode, dk: Disk, parent: nat, j: nat, create: bool)
    requires WfInode(n) && WfDisk(dk) && parent < DATA_BLOCK_COUNT && j < ADDR_PER_BLOCK
    ensures var r := LeafStep(n, dk, parent, j, create);
      && 0 <= Claimed(dk, r.disk) <= 1 && Tally(n, dk, r.node, r.disk, Claimed(dk, r.disk))
      && (!create ==> Claimed(dk, r.disk) == 0)
  {
    var r := LeafStep(n, dk, parent, j, create);
    if Word(dk.data, parent, j) == 0 && create && Take(dk).Allocated? {
      TakeCounts(n, dk, r.node, r.disk);
    }
  }

  /** w is the outcome of the single-indirect walk. */
  lemma IndirectWalkCounts(n: Inode, dk: Disk, j: nat, create: bool, w: Resolution)
    requires InRange(n, dk.data) && WfDisk(dk) && j < ADDR_PER_BLOCK && w == IndirectWalk(n, dk, j, create)
    ensures WfDisk(w.disk) && WfInode(w.node)
    ensures && 0 <= Claimed(dk, w.disk) <= 2 && Tally(n, dk, w.node, w.disk, Claimed(dk, w.disk))
            && (!create ==> Claimed(dk, w.disk) == 0)
  {
    assert At(n, dk.data, Ind) < DATA_BLOCK_COUNT;
    EnsureSlotCounts(n, dk, IND_SLOT, create);
    var s := EnsureSlot(n, dk, IND_SLOT, create);
    if s.ret == 0 {
      LeafStepCounts(s.node, s.disk, s.node.iBlock[IND_SLOT], j, create);
      var r := LeafStep(s.node, s.disk, s.node.iBlock[IND_SLOT], j, create);
      TallyTrans(n, dk, s.node, s.disk, r.node, r.disk);
      assert w == r;
    } else {
      assert w == s;
    }
  }

  /** w is the outcome of the double-indirect walk. */
  lemma DoubleWalkCounts(n: Inode, dk: Disk, i: nat, j: nat, create: bool, w: Resolution)
    requires InRange(n, dk.data) && WfDisk(dk) && i < ADDR_PER_BLOCK && j < ADDR_PER_BLOCK
    requires w == DoubleWalk(n, dk, i, j, create)
    ensures WfDisk(w.disk) && WfInode(w.node)
    ensures && 0 <= Claimed(dk, w.disk) <= 3 && Tally(n, dk, w.node, w.disk, Claimed(dk, w.disk))
            && (!create ==> Claimed(dk, w.disk) == 0)
  {
    assert At(n, dk.data, Top) < DATA_BLOCK_COUNT;
    assert ValidPos(Mid(i)) && At(n, dk.data, Mid(i)) < DATA_BLOCK_COUNT;
    EnsureSlotCounts(n, dk, DIND_SLOT, create);
    var s := EnsureSlot(n, dk, DIND_SLOT, create);
    if s.ret == 0 {
      var top := s.node.iBlock[DIND_SLOT];
      EnsureMidCounts(s.node, s.disk, top, i, create);
      var t := EnsureMid(s.node, s.disk, top, i, create);
      TallyTrans(n, dk, s.node, s.disk, t.node, t.disk);
      if t.ret == 0 {
        var mid := Word(t.disk.data, top, i);
        LeafStepCounts(t.node, t.disk, mid, j, create);
        var r := LeafStep(t.node, t.disk, mid, j, create);
        TallyTrans(n, dk, t.node, t.disk, r.node, r.disk);
        assert w == r;
      } else {
        assert w == t;
      }
    } else {
      assert w == s;
    }
  }

  /** Every block `osfs_get_block` claims raises `i_blocks` by one and lowers
      `nr_free_blocks` by one: with k the number of bits it newly sets, both
      counters move by exactly k, no bit is cleared, and a call that sets no
      bit leaves the inode and the disk as they were. At most one block is
      claimed for a direct block, two for a single-indirect one, three for a
      double-indirect one, and none without create. */
  lemma ResolveCounts(n: Inode, dk: Disk, b: nat, create: bool)
    requires InRange(n, dk.data) && WfDisk(dk)
    ensures var r := Resolve(n, dk, b, create);
      var k := Claimed(dk, r.disk);
      && 0 <= k <= 3 && Tally(n, dk, r.node, r.disk, k)
      && (b < N_DIRECT ==> k <= 1)
      && (b < N_DIRECT + ADDR_PER_BLOCK ==> k <= 2)
      && (!create ==> k == 0)
  {
    if b < N_DIRECT {
      DirectCounts(n, dk, b, create);
    } else if b < N_DIRECT + ADDR_PER_BLOCK {
      IndirectCounts(n, dk, b, create);
    } else if b < MAX_LOGICAL {
      DoubleCounts(n, dk, b, create);
    } else {
      AddressableRange();
      assert Resolve(n, dk, b, create) == Resolution(-EFBIG, 0, n, dk);
    }
  }

  lemma DirectCounts(n: Inode, dk: Disk, b: nat, create: bool)
    requires InRange(n, dk.data) && WfDisk(dk) && b < N_DIRECT
    ensures var r := Resolve(n, dk, b, create);
      && 0 <= Claimed(dk, r.disk) <= 1 && Tally(n, dk, r.node, r.disk, Claimed(dk, r.disk))
      && (!create ==> Claimed(dk, r.disk) == 0)
  {
    DirectStepCounts(n, dk, b, create);
    assert Resolve(n, dk, b, create) == DirectStep(n, dk, b, create);
  }

  lemma IndirectCounts(n: Inode, dk: Disk, b: nat, create: bool)
    requires InRange(n, dk.data) && WfDisk(dk) && N_DIRECT <= b < N_DIRECT + ADDR_PER_BLOCK
    ensures var r := Resolve(n, dk, b, create);
      && 0 <= Claimed(dk, r.disk) <= 2 && Tally(n, dk, r.node, r.disk, Claimed(dk, r.disk))
      && (!create ==> Claimed(dk, r.disk) == 0)
  {
    ResolveIndirect(n, dk, b, create);
    IndirectWalkCounts(n, dk, b - N_DIRECT, create, Resolve(n, dk, b, create));
  }

  lemma DoubleCounts(n: Inode, dk: Disk, b: nat, create: bool)
    requires InRange(n, dk.data) && WfDisk(dk) && N_DIRECT + ADDR_PER_BLOCK <= b < MAX_LOGICAL
    ensures var r := Resolve(n, dk, b, create);
      && 0 <= Claimed(dk, r.disk) <= 3 && Tally(n, dk, r.node, r.disk, Claimed(dk, r.disk))
      && (!create ==> Claimed(dk, r.disk) == 0)
  {
    var x := b - N_DIRECT - ADDR_PER_BLOCK;
    ResolveBeyond(n, dk, b, create);
    DoubleWalkCounts(n, dk, x / ADDR_PER_BLOCK, x % ADDR_PER_BLOCK, create, Resolve(n, dk, b, create));
  }

  /** A logical block whose leaf is already present is returned as it is,
      with or without create, and nothing changes. */
  lemma ResolvePresent(n: Inode, dk: Disk, b: nat, create: bool)
    requires InRange(n, dk.data) && WfDisk(dk) && b < MAX_LOGICAL && At(n, dk.data, LeafPos(b)) != 0
    ensures Resolve(n, dk, b, create) == Resolution(0, At(n, dk.data, LeafPos(b)), n, dk)
  {
    assert ADDR_PER_BLOCK == 256 && N_DIRECT == 12 && MAX_LOGICAL == 12 + 256 + 65536;
    var d := dk.data;
    if b < N_DIRECT {
      assert LeafPos(b) == Direct(b);
    } else if b - N_DIRECT < ADDR_PER_BLOCK {
      assert LeafPos(b) == IndLeaf(b - N_DIRECT);
      assert ValidPos(Ind) && At(n, d, Ind) < DATA_BLOCK_COUNT;
    } else {
      var x := b - N_DIRECT - ADDR_PER_BLOCK;
      var i, j := x / 256, x % 256;
      assert i < 256 && j < 256;
      assert LeafPos(b) == DLeaf(i, j);
      assert ValidPos(Top) && ValidPos(Mid(i));
      assert At(n, d, Top) < DATA_BLOCK_COUNT && At(n, d, Mid(i)) < DATA_BLOCK_COUNT;
      assert Resolve(n, dk, b, create) == DoubleWalk(n, dk, i, j, create);
    }
  }

  /** Asking again for a block just obtained with create returns the same
      block and claims nothing, once block 0 is in use. */
  lemma ResolveRepeat(n: Inode, dk: Disk, b: nat, again: bool)
    requires SoundDisk(n, dk) && dk.bitmap[0]
    ensures var r := Resolve(n, dk, b, true);
      r.ret == 0 ==>
        InRange(r.node, r.disk.data) && Resolve(r.node, r.disk, b, again) == Resolution(0, r.phys, r.node, r.disk)
  {
    ResolveSound(n, dk, b, true);
    var r := Resolve(n, dk, b, true);
    if r.ret == 0 {
      ResolvePresent(r.node, r.disk, b, again);
    }
  }

  /** The index block claimed for an empty slot 12 or 13 stays linked in the
      slot, marked and counted when the data block after it cannot be
      claimed: the call fails with -ENOSPC on a full zone. */
  lemma LeafFailKeepsIndex(n: Inode, dk: Disk, b: nat)
    requires InRange(n, dk.data) && WfDisk(dk) && N_DIRECT <= b < MAX_LOGICAL
    ensures var slot := if b < N_DIRECT + ADDR_PER_BLOCK then IND_SLOT else DIND_SLOT;
      var r := Resolve(n, dk, b, true);
      n.iBlock[slot] == 0 && Take(dk).Allocated? && r.ret == -ENOSPC ==>
        && r.node.iBlock == n.iBlock[slot := Take(dk).no]
        && r.disk.bitmap[Take(dk).no]
        && (forall x :: 0 <= x < DATA_BLOCK_COUNT ==> r.disk.bitmap[x])
        && 1 <= Claimed(dk, r.disk)
  {
    AddressableRange();
    if b < N_DIRECT + ADDR_PER_BLOCK {
      assert Resolve(n, dk, b, true) == IndirectWalk(n, dk, b - N_DIRECT, true);
      IndFailKeeps(n, dk, b - N_DIRECT);
    } else {
      var x := b - N_DIRECT - ADDR_PER_BLOCK;
      assert Resolve(n, dk, b, true) == DoubleWalk(n, dk, x / ADDR_PER_BLOCK, x % ADDR_PER_BLOCK, true);
      TopFailKeeps(n, dk, x / ADDR_PER_BLOCK, x % ADDR_PER_BLOCK);
    }
  }

  /** The single-indirect case of LeafFailKeepsIndex. */
  lemma IndFailKeeps(n: Inode, dk: Disk, j: nat)
    requires InRange(n, dk.data) && WfDisk(dk) && j < ADDR_PER_BLOCK
    ensures var r := IndirectWalk(n, dk, j, true);
      n.iBlock[IND_SLOT] == 0 && Take(dk).Allocated? && r.ret == -ENOSPC ==>
        && r.node.iBlock == n.iBlock[IND_SLOT := Take(dk).no]
        && r.disk.bitmap[Take(dk).no]
        && (forall x :: 0 <= x < DATA_BLOCK_COUNT ==> r.disk.bitmap[x])
        && 1 <= Claimed(dk, r.disk)
  {
    if n.iBlock[IND_SLOT] == 0 && Take(dk).Allocated? {
      var v := Take(dk).no;
      var s := EnsureSlot(n, dk, IND_SLOT, true);
      EnsureSlotCounts(n, dk, IND_SLOT, true);
      assert s.ret == 0 && s.node.iBlock == n.iBlock[IND_SLOT := v] && s.disk.bitmap[v] && !dk.bitmap[v];
      assert Claimed(dk, s.disk) == 1;
      assert Word(s.disk.data, v, j) == 0;
      var u := LeafStep(s.node, s.disk, v, j, true);
      assert IndirectWalk(n, dk, j, true) == u;
    }
  }

  /** The double-indirect case of LeafFailKeepsIndex. */
  lemma TopFailKeeps(n: Inode, dk: Disk, i: nat, j: nat)
    requires InRange(n, dk.data) && WfDisk(dk) && i < ADDR_PER_BLOCK && j < ADDR_PER_BLOCK
    ensures var r := DoubleWalk(n, dk, i, j, true);
      n.iBlock[DIND_SLOT] == 0 && Take(dk).Allocated? && r.ret == -ENOSPC ==>
        && r.node.iBlock == n.iBlock[DIND_SLOT := Take(dk).no]
        && r.disk.bitmap[Take(dk).no]
        && (forall x :: 0 <= x < DATA_BLOCK_COUNT ==> r.disk.bitmap[x])
        && 1 <= Claimed(dk, r.disk)
  {
    if n.iBlock[DIND_SLOT] == 0 && Take(dk).Allocated? {
      var v := Take(dk).no;
      var s := EnsureSlot(n, dk, DIND_SLOT, true);
      EnsureSlotCounts(n, dk, DIND_SLOT, true);
      assert s.ret == 0 && s.node.iBlock == n.iBlock[DIND_SLOT := v] && s.disk.bitmap[v];
      assert Word(s.disk.data, v, i) == 0;
      MidFailKeeps(s.node, s.disk, v, i, j);
      var t := EnsureMid(s.node, s.disk, v, i, true);
      EnsureMidCounts(s.node, s.disk, v, i, true);
      TallyTrans(n, dk, s.node, s.disk, t.node, t.disk);
      assert t.node.iBlock == s.node.iBlock && t.disk.bitmap[v];
      if t.ret == 0 {
        var u := LeafStep(t.node, t.disk, Word(t.disk.data, v, i), j, true);
        assert DoubleWalk(n, dk, i, j, true) == u;
      } else {
        assert DoubleWalk(n, dk, i, j, true) == t;
      }
    }
  }

  /** Under a freshly zeroed top block v, the intermediate block claimed for
      pointer i is stored there and zeroed, so the leaf step that follows
      finds pointer j empty: a -ENOSPC from it keeps the state it got. */
  lemma MidFailKeeps(n: Inode, dk: Disk, top: nat, i: nat, j: nat)
    requires WfInode(n) && WfDisk(dk) && top < DATA_BLOCK_COUNT && dk.bitmap[top]
    requires i < ADDR_PER_BLOCK && j < ADDR_PER_BLOCK && Word(dk.data, top, i) == 0
    ensures var t := EnsureMid(n, dk, top, i, true);
      t.ret == 0 ==>
        && Word(t.disk.data, top, i) == Take(dk).no && t.node.iBlock == n.iBlock
        && var r := LeafStep(t.node, t.disk, Word(t.disk.data, top, i), j, true);
          (r.ret != 0 ==> r == Resolution(-ENOSPC, 0, t.node, t.disk) && Take(t.disk).NoSpace?)
  {
    var t := EnsureMid(n, dk, top, i, true);
    if t.ret == 0 {
      var v := Take(dk).no;
      assert v != top;
      var e := SetWord(dk.data, top, i, v);
      assert t.disk.data == ZeroBlock(e, v);
      WordAfterSetWord(dk.data, top, i, v, top, i);
      assert Word(t.disk.data, top, i) == v;
      assert Word(t.disk.data, v, j) == 0;
    }
  }

  /** The intermediate block claimed under a live top block stays stored in
      the top block, marked and counted, when the data block after it cannot
      be claimed. */
  lemma LeafFailKeepsMid(n: Inode, dk: Disk, b: nat)
    requires SoundDisk(n, dk) && N_DIRECT + ADDR_PER_BLOCK <= b < MAX_LOGICAL
    ensures var x := b - N_DIRECT - ADDR_PER_BLOCK;
      var top := n.iBlock[DIND_SLOT];
      var r := Resolve(n, dk, b, true);
      top != 0 && Word(dk.data, top, x / ADDR_PER_BLOCK) == 0 && Take(dk).Allocated? && r.ret == -ENOSPC ==>
        && r.node.iBlock == n.iBlock
        && Word(r.disk.data, top, x / ADDR_PER_BLOCK) == Take(dk).no
        && r.disk.bitmap[Take(dk).no]
        && (forall x :: 0 <= x < DATA_BLOCK_COUNT ==> r.disk.bitmap[x])
        && 1 <= Claimed(dk, r.disk)
  {
    AddressableRange();
    var x := b - N_DIRECT - ADDR_PER_BLOCK;
    var i, j := x / ADDR_PER_BLOCK, x % ADDR_PER_BLOCK;
    assert Resolve(n, dk, b, true) == DoubleWalk(n, dk, i, j, true);
    DoubleLeafFails(n, dk, i, j);
  }

  /** The double-indirect walk of LeafFailKeepsMid. */
  lemma DoubleLeafFails(n: Inode, dk: Disk, i: nat, j: nat)
    requires SoundDisk(n, dk) && i < ADDR_PER_BLOCK && j < ADDR_PER_BLOCK
    ensures var top := n.iBlock[DIND_SLOT];
      var r := DoubleWalk(n, dk, i, j, true);
      top != 0 && Word(dk.data, top, i) == 0 && Take(dk).Allocated? && r.ret == -ENOSPC ==>
        && r.node.iBlock == n.iBlock
        && Word(r.disk.data, top, i) == Take(dk).no
        && r.disk.bitmap[Take(dk).no]
        && (forall x :: 0 <= x < DATA_BLOCK_COUNT ==> r.disk.bitmap[x])
        && 1 <= Claimed(dk, r.disk)
  {
    var top := n.iBlock[DIND_SLOT];
    if top != 0 && Word(dk.data, top, i) == 0 && Take(dk).Allocated? {
      assert ValidPos(Top) && At(n, dk.data, Top) == top;
      assert EnsureSlot(n, dk, DIND_SLOT, true) == Resolution(0, 0, n, dk);
      MidFailKeeps(n, dk, top, i, j);
      var t := EnsureMid(n, dk, top, i, true);
      EnsureMidCounts(n, dk, top, i, true);
      if t.ret == 0 {
        var r := LeafStep(t.node, t.disk, Word(t.disk.data, top, i), j, true);
        assert r.ret != 0 ==> r.disk == t.disk && r.node == t.node;
      }
    }
  }
}
