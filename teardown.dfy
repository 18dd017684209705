/** `osfs_free_inode_blocks`: the order in which the walk over an inode's
    pointer table hands blocks to `osfs_free_data_block`, and what that does
    to the block bitmap and the free-block counter. */
module Teardown {
  import opened Layout
  import opened Blocks
  import opened PointerMap

  /** Nonzero pointers j, j+1, ..., ADDR_PER_BLOCK - 1 of block blk. */
  function Nonzero(d: seq<Block>, blk: nat, j: nat): (r: seq<nat>)
    requires j <= ADDR_PER_BLOCK
    decreases ADDR_PER_BLOCK - j
  {
    if j == ADDR_PER_BLOCK then []
    else (if Word(d, blk, j) != 0 then [Word(d, blk, j)] else []) + Nonzero(d, blk, j + 1)
  }

  /** The blocks freed for one mid-level pointer m: its nonzero pointers,
      then m itself. */
  function MidGroup(d: seq<Block>, m: nat): seq<nat>
  {
    if m != 0 then Nonzero(d, m, 0) + [m] else []
  }

  /** Blocks under pointers i, i+1, ... of the top-level block: for each
      nonzero one, its nonzero pointers, then the mid-level block itself. */
  function MidFrees(d: seq<Block>, top: nat, i: nat): (r: seq<nat>)
    requires i <= ADDR_PER_BLOCK
    decreases ADDR_PER_BLOCK - i
  {
    if i == ADDR_PER_BLOCK then []
    else
      MidGroup(d, Word(d, top, i)) + MidFrees(d, top, i + 1)
  }

  /** Nonzero direct slots k, k+1, ..., N_DIRECT - 1. */
  function DirectFrees(n: Inode, k: nat): (r: seq<nat>)
    requires WfInode(n) && k <= N_DIRECT
    decreases N_DIRECT - k
  {
    if k == N_DIRECT then []
    else (if n.iBlock[k] != 0 then [n.iBlock[k]] else []) + DirectFrees(n, k + 1)
  }

  /** The single-indirect part: the nonzero pointers of ind, then ind. */
  function IndexPart(d: seq<Block>, ind: nat): seq<nat>
  {
    if ind != 0 then Nonzero(d, ind, 0) + [ind] else []
  }

  /** The double-indirect part: the tree under top bottom up, then top. */
  function TreePart(d: seq<Block>, top: nat): seq<nat>
  {
    if top != 0 then MidFrees(d, top, 0) + [top] else []
  }

  /** Every block `osfs_free_inode_blocks` frees, in order: the direct
      blocks, then the single-indirect data blocks and their index block,
      then the double-indirect tree bottom up and its top block. */
  function FreeOrder(n: Inode, d: seq<Block>): seq<nat>
    requires WfInode(n)
  {
    DirectFrees(n, 0) + IndexPart(d, n.iBlock[IND_SLOT]) + TreePart(d, n.iBlock[DIND_SLOT])
  }

  /** `clear_bit` for each block of xs in turn (a number past the bitmap
      clears nothing). */
  function ClearAll(bm: seq<bool>, xs: seq<nat>): (r: seq<bool>)
    ensures |r| == |bm|
    decreases |xs|
  {
    if xs == [] then bm
    else ClearAll(if xs[0] < |bm| then bm[xs[0] := false] else bm, xs[1..])
  }

  /** A bit is set after the walk exactly when it was set before and no
      element of xs named it. */
  lemma {:induction false} ClearAllAt(bm: seq<bool>, xs: seq<nat>, x: nat)
    requires x < |bm|
    ensures ClearAll(bm, xs)[x] == (bm[x] && x !in xs)
    decreases |xs|
  {
    if xs != [] {
      var bm' := if xs[0] < |bm| then bm[xs[0] := false] else bm;
      ClearAllAt(bm', xs[1..], x);
      assert (x in xs) == (x == xs[0] || x in xs[1..]);
    }
  }

  /** Clearing one more block clears its bit and keeps every other. */
  lemma {:induction false} ClearAllSnoc(bm: seq<bool>, xs: seq<nat>, x: nat)
    requires x < |bm|
    ensures ClearAll(bm, xs + [x]) == ClearAll(bm, xs)[x := false]
    decreases |xs|
  {
    if xs == [] {
      assert ClearAll(bm, [x]) == ClearAll(bm[x := false], []);
    } else {
      var bm' := if xs[0] < |bm| then bm[xs[0] := false] else bm;
      assert (xs + [x])[1..] == xs[1..] + [x];
      ClearAllSnoc(bm', xs[1..], x);
    }
  }

  /** Every pointer of block blk names a block of the data zone. */
  ghost predicate PointersInZone(d: seq<Block>, blk: nat)
  {
    forall j :: 0 <= j < ADDR_PER_BLOCK ==> Word(d, blk, j) < DATA_BLOCK_COUNT
  }

  /** Pointer i of block top names a block of the data zone, and when
      nonzero a block whose own pointers do too. */
  ghost predicate MidInZone(d: seq<Block>, top: nat, i: nat)
  {
    Word(d, top, i) < DATA_BLOCK_COUNT && (Word(d, top, i) != 0 ==> PointersInZone(d, Word(d, top, i)))
  }

  /** The same for every pointer of the double-indirect block top. */
  ghost predicate TreeInZone(d: seq<Block>, top: nat)
  {
    forall i :: 0 <= i < ADDR_PER_BLOCK ==> MidInZone(d, top, i)
  }

  /** Slots zeroed below N_DIRECT, then the two index slots: all zero. */
  lemma AllSlotsZero(a: seq<nat>, orig: seq<nat>)
    requires |a| == N_BLOCKS && |orig| == N_BLOCKS
    requires forall s :: 0 <= s < N_BLOCKS ==> a[s] == if s < N_DIRECT then 0 else orig[s]
    ensures a[IND_SLOT := 0][DIND_SLOT := 0] == seq(N_BLOCKS, _ => 0)
  {
    var z := a[IND_SLOT := 0][DIND_SLOT := 0];
    forall s | 0 <= s < N_BLOCKS
      ensures z[s] == 0
    {
    }
  }

  /** The index blocks of an inode whose graph lies in the zone hold only
      pointers into the zone. */
  lemma IndexBlocksInZone(n: Inode, d: seq<Block>)
    requires InRange(n, d)
    ensures n.iBlock[IND_SLOT] != 0 ==> PointersInZone(d, n.iBlock[IND_SLOT])
    ensures n.iBlock[DIND_SLOT] != 0 ==> TreeInZone(d, n.iBlock[DIND_SLOT])
  {
    var ind, top := n.iBlock[IND_SLOT], n.iBlock[DIND_SLOT];
    if ind != 0 {
      forall j | 0 <= j < ADDR_PER_BLOCK
        ensures Word(d, ind, j) < DATA_BLOCK_COUNT
      {
        assert At(n, d, IndLeaf(j)) == Word(d, ind, j);
      }
    }
    if top != 0 {
      forall i | 0 <= i < ADDR_PER_BLOCK
        ensures MidInZone(d, top, i)
      {
        var m := Word(d, top, i);
        assert At(n, d, Mid(i)) == m;
        if m != 0 {
          forall j | 0 <= j < ADDR_PER_BLOCK
            ensures Word(d, m, j) < DATA_BLOCK_COUNT
          {
            assert At(n, d, DLeaf(i, j)) == Word(d, m, j);
          }
        }
      }
    }
  }

  /** With xs freed so far and the pointers of blk from j on still to go,
      the walk ends with goal. */
  ghost predicate PointersLeft(xs: seq<nat>, d: seq<Block>, blk: nat, j: nat, goal: seq<nat>)
    requires j <= ADDR_PER_BLOCK
  {
    xs + Nonzero(d, blk, j) == goal
  }

  /** At the end of the walk every pointer is accounted for. */
  lemma PointersDone(xs: seq<nat>, d: seq<Block>, blk: nat, goal: seq<nat>)
    requires PointersLeft(xs, d, blk, ADDR_PER_BLOCK, goal)
    ensures xs == goal
  {
    assert Nonzero(d, blk, ADDR_PER_BLOCK) == [];
    assert xs + [] == xs;
  }

  /** One step of the walk over the pointers of blk: pointer j is freed
      when nonzero. */
  lemma NonzeroNext(d: seq<Block>, blk: nat, j: nat, xs: seq<nat>, goal: seq<nat>)
    requires j < ADDR_PER_BLOCK && PointersLeft(xs, d, blk, j, goal)
    ensures Word(d, blk, j) != 0 ==> PointersLeft(xs + [Word(d, blk, j)], d, blk, j + 1, goal)
    ensures Word(d, blk, j) == 0 ==> PointersLeft(xs, d, blk, j + 1, goal)
  {
    var w, rest := Word(d, blk, j), Nonzero(d, blk, j + 1);
    assert Nonzero(d, blk, j) == (if w != 0 then [w] else []) + rest;
    if w != 0 {
      assert (xs + [w]) + rest == xs + ([w] + rest);
    } else {
      assert [] + rest == rest;
    }
  }

  /** With xs freed so far and the pointers of the top block from i on
      still to go, the walk ends with goal. */
  ghost predicate MidsLeft(xs: seq<nat>, d: seq<Block>, top: nat, i: nat, goal: seq<nat>)
    requires i <= ADDR_PER_BLOCK
  {
    xs + MidFrees(d, top, i) == goal
  }

  /** At the end of the walk every intermediate block is accounted for. */
  lemma MidsDone(xs: seq<nat>, d: seq<Block>, top: nat, goal: seq<nat>)
    requires MidsLeft(xs, d, top, ADDR_PER_BLOCK, goal)
    ensures xs == goal
  {
    assert MidFrees(d, top, ADDR_PER_BLOCK) == [];
    assert xs + [] == xs;
  }

  /** One step of the walk over the pointers of the top block: a nonzero
      intermediate block's pointers, then the block itself. */
  lemma MidNext(d: seq<Block>, top: nat, i: nat, xs: seq<nat>, goal: seq<nat>)
    requires i < ADDR_PER_BLOCK && MidsLeft(xs, d, top, i, goal)
    ensures var m := Word(d, top, i);
      m != 0 ==> MidsLeft((xs + Nonzero(d, m, 0)) + [m], d, top, i + 1, goal)
    ensures Word(d, top, i) == 0 ==> MidsLeft(xs, d, top, i + 1, goal)
  {
    var m, rest := Word(d, top, i), MidFrees(d, top, i + 1);
    assert MidFrees(d, top, i) == MidGroup(d, m) + rest;
    if m != 0 {
      var nz := Nonzero(d, m, 0);
      assert MidGroup(d, m) == nz + [m];
      Regroup(xs, nz, [m], rest);
    } else {
      assert MidGroup(d, m) == [];
      assert [] + rest == rest;
    }
  }

  lemma Regroup(a: seq<nat>, b: seq<nat>, c: seq<nat>, e: seq<nat>)
    ensures ((a + b) + c) + e == a + ((b + c) + e)
  {
  }

  /** With xs freed so far and the direct slots from k on still to go, the
      walk ends with goal. */
  ghost predicate SlotsLeft(xs: seq<nat>, n: Inode, k: nat, goal: seq<nat>)
    requires WfInode(n) && k <= N_DIRECT
  {
    xs + DirectFrees(n, k) == goal
  }

  /** One step of the walk over the direct slots. */
  lemma DirectNext(n: Inode, k: nat, xs: seq<nat>, goal: seq<nat>)
    requires WfInode(n) && k < N_DIRECT && SlotsLeft(xs, n, k, goal)
    ensures n.iBlock[k] != 0 ==> SlotsLeft(xs + [n.iBlock[k]], n, k + 1, goal)
    ensures n.iBlock[k] == 0 ==> SlotsLeft(xs, n, k + 1, goal)
  {
    var v, rest := n.iBlock[k], DirectFrees(n, k + 1);
    if v != 0 {
      assert (xs + [v]) + rest == xs + ([v] + rest);
    } else {
      assert [] + rest == rest;
    }
  }

  /** Some pointer k of block blk with j <= k holds x. */
  ghost predicate WordFrom(d: seq<Block>, blk: nat, j: nat, x: nat)
  {
    exists k :: j <= k < ADDR_PER_BLOCK && Word(d, blk, k) == x
  }

  /** x is the nonzero mid-level block m or one of m's pointers. */
  ghost predicate UnderMid(d: seq<Block>, m: nat, x: nat)
  {
    m != 0 && (m == x || WordFrom(d, m, 0, x))
  }

  /** Some mid-level pointer k of the top block with i <= k leads to x. */
  ghost predicate MidFrom(d: seq<Block>, top: nat, i: nat, x: nat)
  {
    exists k :: i <= k < ADDR_PER_BLOCK && UnderMid(d, Word(d, top, k), x)
  }

  lemma {:induction false} NonzeroMembers(d: seq<Block>, blk: nat, j: nat, x: nat)
    requires j <= ADDR_PER_BLOCK
    ensures x in Nonzero(d, blk, j) <==> x != 0 && WordFrom(d, blk, j, x)
    decreases ADDR_PER_BLOCK - j
  {
    if j < ADDR_PER_BLOCK {
      NonzeroMembers(d, blk, j + 1, x);
      if Word(d, blk, j) == x && x != 0 {
        assert x in Nonzero(d, blk, j);
      }
      if WordFrom(d, blk, j, x) && Word(d, blk, j) != x {
        var k :| j <= k < ADDR_PER_BLOCK && Word(d, blk, k) == x;
        assert WordFrom(d, blk, j + 1, x);
      }
    }
  }

  lemma MidGroupMembers(d: seq<Block>, m: nat, x: nat)
    ensures x in MidGroup(d, m) <==> x != 0 && UnderMid(d, m, x)
  {
    NonzeroMembers(d, m, 0, x);
  }

  lemma MidFromStep(d: seq<Block>, top: nat, i: nat, x: nat)
    requires i < ADDR_PER_BLOCK
    ensures MidFrom(d, top, i, x) <==> UnderMid(d, Word(d, top, i), x) || MidFrom(d, top, i + 1, x)
  {
    if MidFrom(d, top, i, x) && !UnderMid(d, Word(d, top, i), x) {
      var k :| i <= k < ADDR_PER_BLOCK && UnderMid(d, Word(d, top, k), x);
      assert MidFrom(d, top, i + 1, x);
    }
  }

  lemma {:induction false} MidMembers(d: seq<Block>, top: nat, i: nat, x: nat)
    requires i <= ADDR_PER_BLOCK
    ensures x in MidFrees(d, top, i) <==> x != 0 && MidFrom(d, top, i, x)
    decreases ADDR_PER_BLOCK - i
  {
    if i < ADDR_PER_BLOCK {
      MidMembers(d, top, i + 1, x);
      var m := Word(d, top, i);
      assert MidFrees(d, top, i) == MidGroup(d, m) + MidFrees(d, top, i + 1);
      MidGroupMembers(d, m, x);
      MidFromStep(d, top, i, x);
    }
  }

  lemma {:induction false} DirectMembers(n: Inode, k: nat, x: nat)
    requires WfInode(n) && k <= N_DIRECT
    ensures x in DirectFrees(n, k) <==> x != 0 && exists s :: k <= s < N_DIRECT && n.iBlock[s] == x
    decreases N_DIRECT - k
  {
    if k < N_DIRECT {
      DirectMembers(n, k + 1, x);
    }
  }

  /** Some position of the pointer graph holds x. */
  ghost predicate Reached(n: Inode, d: seq<Block>, x: nat)
    requires WfInode(n)
  {
    exists p :: ValidPos(p) && At(n, d, p) == x
  }

  lemma FreedInDind(n: Inode, d: seq<Block>, x: nat)
    requires WfInode(n) && n.iBlock[DIND_SLOT] != 0
    requires x in MidFrees(d, n.iBlock[DIND_SLOT], 0) + [n.iBlock[DIND_SLOT]]
    ensures x != 0 && Reached(n, d, x)
  {
    var top := n.iBlock[DIND_SLOT];
    if x == top {
      assert ValidPos(Top) && At(n, d, Top) == x;
    } else {
      MidMembers(d, top, 0, x);
      var i :| 0 <= i < ADDR_PER_BLOCK && UnderMid(d, Word(d, top, i), x);
      var m := Word(d, top, i);
      if m == x {
        assert ValidPos(Mid(i)) && At(n, d, Mid(i)) == x;
      } else {
        var j :| 0 <= j < ADDR_PER_BLOCK && Word(d, m, j) == x;
        assert ValidPos(DLeaf(i, j)) && At(n, d, DLeaf(i, j)) == x;
      }
    }
  }

  lemma FreedInInd(n: Inode, d: seq<Block>, x: nat)
    requires WfInode(n) && n.iBlock[IND_SLOT] != 0
    requires x in Nonzero(d, n.iBlock[IND_SLOT], 0) + [n.iBlock[IND_SLOT]]
    ensures x != 0 && Reached(n, d, x)
  {
    var ind := n.iBlock[IND_SLOT];
    if x == ind {
      assert ValidPos(Ind) && At(n, d, Ind) == x;
    } else {
      NonzeroMembers(d, ind, 0, x);
      var j :| 0 <= j < ADDR_PER_BLOCK && Word(d, ind, j) == x;
      assert ValidPos(IndLeaf(j)) && At(n, d, IndLeaf(j)) == x;
    }
  }

  /** Every block the walk frees is a nonzero block of the pointer graph. */
  lemma FreedIsReached(n: Inode, d: seq<Block>, x: nat)
    requires WfInode(n) && x in FreeOrder(n, d)
    ensures x != 0 && Reached(n, d, x)
  {
    var ind := n.iBlock[IND_SLOT];
    var top := n.iBlock[DIND_SLOT];
    if x in DirectFrees(n, 0) {
      DirectMembers(n, 0, x);
      var s :| 0 <= s < N_DIRECT && n.iBlock[s] == x;
      assert ValidPos(Direct(s)) && At(n, d, Direct(s)) == x;
    } else if ind != 0 && x in Nonzero(d, ind, 0) + [ind] {
      FreedInInd(n, d, x);
    } else {
      FreedInDind(n, d, x);
    }
  }

  /** Every nonzero block of the pointer graph is freed. */
  lemma ReachedIsFreed(n: Inode, d: seq<Block>, p: Pos)
    requires WfInode(n) && ValidPos(p) && At(n, d, p) != 0
    ensures At(n, d, p) in FreeOrder(n, d)
  {
    var x := At(n, d, p);
    if p.Direct? {
      ReachedDirect(n, d, p, x);
    } else if p.Ind? || p.IndLeaf? {
      ReachedIndex(n, d, p, x);
    } else {
      ReachedTree(n, d, p, x);
    }
  }

  lemma ReachedDirect(n: Inode, d: seq<Block>, p: Pos, x: nat)
    requires WfInode(n) && ValidPos(p) && p.Direct? && x == At(n, d, p) && x != 0
    ensures x in FreeOrder(n, d)
  {
    DirectMembers(n, 0, x);
    assert n.iBlock[p.k] == x;
    FreeOrderParts(n, d, x);
  }

  lemma ReachedIndex(n: Inode, d: seq<Block>, p: Pos, x: nat)
    requires WfInode(n) && ValidPos(p) && (p.Ind? || p.IndLeaf?) && x == At(n, d, p) && x != 0
    ensures x in FreeOrder(n, d)
  {
    var ind := n.iBlock[IND_SLOT];
    if p.IndLeaf? {
      IndexPartHas(d, ind, p.j);
    }
    assert x in IndexPart(d, ind);
    FreeOrderParts(n, d, x);
  }

  lemma ReachedTree(n: Inode, d: seq<Block>, p: Pos, x: nat)
    requires WfInode(n) && ValidPos(p) && (p.Top? || p.Mid? || p.DLeaf?) && x == At(n, d, p) && x != 0
    ensures x in FreeOrder(n, d)
  {
    var top := n.iBlock[DIND_SLOT];
    if p.Mid? {
      TreePartHas(d, top, p.i, x);
    } else if p.DLeaf? {
      var m := Word(d, top, p.i);
      assert Word(d, m, p.j) == x;
      assert WordFrom(d, m, 0, x);
      TreePartHas(d, top, p.i, x);
    }
    assert x in TreePart(d, top);
    FreeOrderParts(n, d, x);
  }

  /** The freed blocks are those of the three parts. */
  lemma FreeOrderParts(n: Inode, d: seq<Block>, x: nat)
    requires WfInode(n)
    ensures x in FreeOrder(n, d) <==>
      x in DirectFrees(n, 0) || x in IndexPart(d, n.iBlock[IND_SLOT]) || x in TreePart(d, n.iBlock[DIND_SLOT])
  {
  }

  /** A nonzero pointer of a nonzero single-indirect block is freed. */
  lemma IndexPartHas(d: seq<Block>, ind: nat, j: nat)
    requires ind != 0 && j < ADDR_PER_BLOCK && Word(d, ind, j) != 0
    ensures Word(d, ind, j) in IndexPart(d, ind)
  {
    NonzeroMembers(d, ind, 0, Word(d, ind, j));
    assert WordFrom(d, ind, 0, Word(d, ind, j));
  }

  /** A nonzero block under mid-level pointer i of a nonzero top block is
      freed. */
  lemma TreePartHas(d: seq<Block>, top: nat, i: nat, x: nat)
    requires top != 0 && i < ADDR_PER_BLOCK && x != 0 && UnderMid(d, Word(d, top, i), x)
    ensures x in TreePart(d, top)
  {
    MidMembers(d, top, 0, x);
    assert MidFrom(d, top, 0, x);
  }

  /** The walk frees a nonzero block exactly when some position of the
      pointer graph reaches it; block 0 is never freed, even when the file
      holds it. */
  lemma FreesExactlyReached(n: Inode, d: seq<Block>, x: nat)
    requires WfInode(n)
    ensures x in FreeOrder(n, d) <==> x != 0 && Reached(n, d, x)
  {
    if x in FreeOrder(n, d) {
      FreedIsReached(n, d, x);
    }
    if x != 0 && Reached(n, d, x) {
      var p :| ValidPos(p) && At(n, d, p) == x;
      ReachedIsFreed(n, d, p);
    }
  }

  /** Every block the walk hands to `osfs_free_data_block` is a valid block
      number, so the bitmap update stays inside the bitmap. */
  lemma FreedInRange(n: Inode, d: seq<Block>)
    requires InRange(n, d)
    ensures forall k :: 0 <= k < |FreeOrder(n, d)| ==> 0 < FreeOrder(n, d)[k] < DATA_BLOCK_COUNT
  {
    forall k | 0 <= k < |FreeOrder(n, d)|
      ensures 0 < FreeOrder(n, d)[k] < DATA_BLOCK_COUNT
    {
      var x := FreeOrder(n, d)[k];
      FreedIsReached(n, d, x);
      var p :| ValidPos(p) && At(n, d, p) == x;
    }
  }

  /** After the walk, a block's bit is set exactly when it was set before and
      no position of the inode reached it. */
  lemma TeardownBitmap(n: Inode, bm: seq<bool>, d: seq<Block>, x: nat)
    requires WfInode(n) && x < |bm|
    ensures ClearAll(bm, FreeOrder(n, d))[x] == (bm[x] && (x == 0 || !Reached(n, d, x)))
  {
    FreesExactlyReached(n, d, x);
    ClearAllAt(bm, FreeOrder(n, d), x);
  }
}
