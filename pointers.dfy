/** The multi-level pointer graph of one inode of the multi-level version:
    the positions a block number can occupy (12 direct slots, the
    single-indirect block and its pointers, the double-indirect block, its
    intermediate blocks and their pointers), the block found at each position,
    and the file content those blocks define. */
module PointerMap {
  import opened Layout
  import opened Blocks

  /** `struct osfs_inode` of the multi-level version (timestamps left out). */
  datatype Inode = Inode(
    ino: nat, size: nat, blocks: nat, mode: nat, links: nat,
    uid: nat, gid: nat, iBlock: seq<nat>)

  predicate WfInode(n: Inode)
  {
    && |n.iBlock| == N_BLOCKS
    && (forall k :: 0 <= k < |n.iBlock| ==> n.iBlock[k] < U32_RANGE)
    && n.size < U32_RANGE && n.blocks < U32_RANGE
  }

  /** Where a block number can be stored: a direct slot, slot 12 (the
      single-indirect block) or one of its pointers, slot 13 (the
      double-indirect block), one of its pointers (an intermediate block) or a
      pointer of intermediate block i. */
  datatype Pos = Direct(k: nat) | Ind | IndLeaf(j: nat) | Top | Mid(i: nat) | DLeaf(i: nat, j: nat)

  predicate ValidPos(p: Pos)
  {
    match p
    case Direct(k) => k < N_DIRECT
    case Ind => true
    case IndLeaf(j) => j < ADDR_PER_BLOCK
    case Top => true
    case Mid(i) => i < ADDR_PER_BLOCK
    case DLeaf(i, j) => i < ADDR_PER_BLOCK && j < ADDR_PER_BLOCK
  }

  /** Positions holding index blocks rather than file data. */
  predicate IsIndexPos(p: Pos)
  {
    p.Ind? || p.Top? || p.Mid?
  }

  /** The block number found at position p by following the pointers from the
      inode; 0 (absent) when a block on the way is 0. */
  function At(n: Inode, d: seq<Block>, p: Pos): (v: nat)
    requires WfInode(n)
    ensures v < U32_RANGE
  {
    match p
    case Direct(k) => if k < N_DIRECT then n.iBlock[k] else 0
    case Ind => n.iBlock[IND_SLOT]
    case IndLeaf(j) => if n.iBlock[IND_SLOT] == 0 then 0 else Word(d, n.iBlock[IND_SLOT], j)
    case Top => n.iBlock[DIND_SLOT]
    case Mid(i) => if n.iBlock[DIND_SLOT] == 0 then 0 else Word(d, n.iBlock[DIND_SLOT], i)
    case DLeaf(i, j) =>
      var m := if n.iBlock[DIND_SLOT] == 0 then 0 else Word(d, n.iBlock[DIND_SLOT], i);
      if m == 0 then 0 else Word(d, m, j)
  }

  /** The leaf position serving logical block b (b < MAX_LOGICAL). */
  function LeafPos(b: nat): (p: Pos)
    requires b < MAX_LOGICAL
    ensures ValidPos(p) && !IsIndexPos(p)
  {
    if b < N_DIRECT then Direct(b)
    else if b - N_DIRECT < ADDR_PER_BLOCK then IndLeaf(b - N_DIRECT)
    else
      AddressableRange();
      var r := b - N_DIRECT - ADDR_PER_BLOCK;
      DLeaf(r / ADDR_PER_BLOCK, r % ADDR_PER_BLOCK)
  }

  /** The logical block a leaf position serves. */
  function LogicalOf(p: Pos): (b: nat)
    requires ValidPos(p) && !IsIndexPos(p)
    ensures b < MAX_LOGICAL
  {
    match p
    case Direct(k) => k
    case IndLeaf(j) => N_DIRECT + j
    case DLeaf(i, j) =>
      AddressableRange();
      N_DIRECT + ADDR_PER_BLOCK + i * ADDR_PER_BLOCK + j
  }

  lemma DivModOf(i: nat, j: nat)
    requires j < 256
    ensures (i * 256 + j) / 256 == i && (i * 256 + j) % 256 == j
  {
    var r := i * 256 + j;
    var q, m := r / 256, r % 256;
    assert r == q * 256 + m;
    assert (q - i) * 256 == j - m;
  }

  /** Logical blocks and leaf positions correspond one to one. */
  lemma LeafPosBijection(b: nat, p: Pos)
    requires b < MAX_LOGICAL && ValidPos(p) && !IsIndexPos(p)
    ensures LogicalOf(LeafPos(b)) == b
    ensures LeafPos(LogicalOf(p)) == p
  {
    assert ADDR_PER_BLOCK == 256 && N_DIRECT == 12;
    if p.DLeaf? {
      DivModOf(p.i, p.j);
    }
  }

  /** Every block the graph reaches lies in the data zone, is marked in the
      block bitmap, and is reached from exactly one position. */
  ghost predicate Sound(n: Inode, bm: seq<bool>, d: seq<Block>)
  {
    && WfInode(n) && WfBlocks(d) && |bm| >= DATA_BLOCK_COUNT
    && (forall p :: ValidPos(p) ==> At(n, d, p) < DATA_BLOCK_COUNT)
    && (forall p :: ValidPos(p) && At(n, d, p) != 0 ==> bm[At(n, d, p)])
    && (forall p, q :: ValidPos(p) && ValidPos(q) && At(n, d, p) != 0 && At(n, d, p) == At(n, d, q) ==> p == q)
  }

  /** Every block the graph reaches lies in the data zone: what the code needs
      to stay inside the zone when it dereferences a pointer. */
  ghost predicate InRange(n: Inode, d: seq<Block>)
  {
    WfInode(n) && WfBlocks(d) && forall p :: ValidPos(p) ==> At(n, d, p) < DATA_BLOCK_COUNT
  }

  /** Block v is reached from no position. */
  ghost predicate Unreached(n: Inode, d: seq<Block>, v: nat)
    requires WfInode(n)
  {
    forall p :: ValidPos(p) && At(n, d, p) != 0 ==> At(n, d, p) != v
  }

  /** Byte x of the file: the byte of the leaf block serving x, or 0 for a
      hole or a block beyond the addressable range. */
  function FileByte(n: Inode, d: seq<Block>, x: nat): byte
    requires WfInode(n)
  {
    var b := x / BLOCK_SIZE;
    if b >= MAX_LOGICAL then 0
    else
      var v := At(n, d, LeafPos(b));
      if v != 0 && v < |d| && x % BLOCK_SIZE < |d[v]| then d[v][x % BLOCK_SIZE] else 0
  }

  /** The leaf serving byte x is present. */
  predicate Present(n: Inode, d: seq<Block>, x: nat)
    requires WfInode(n)
  {
    x / BLOCK_SIZE < MAX_LOGICAL && At(n, d, LeafPos(x / BLOCK_SIZE)) != 0
  }

  /** Blocks that no position reaches as an index block are free to change:
      the graph only reads index blocks, so positions keep their blocks. */
  ghost predicate IndexBlocksKept(n: Inode, d: seq<Block>, e: seq<Block>)
    requires WfInode(n)
  {
    forall p :: ValidPos(p) && IsIndexPos(p) && At(n, d, p) != 0 && At(n, d, p) < |d| ==>
      At(n, d, p) < |e| && e[At(n, d, p)] == d[At(n, d, p)]
  }

  lemma AtKept(n: Inode, d: seq<Block>, e: seq<Block>, p: Pos)
    requires InRange(n, d) && WfBlocks(e) && IndexBlocksKept(n, d, e) && ValidPos(p)
    ensures At(n, e, p) == At(n, d, p)
  {
    var ind := n.iBlock[IND_SLOT];
    var top := n.iBlock[DIND_SLOT];
    if top != 0 {
      assert At(n, d, Top) == top;
    }
    if ind != 0 {
      assert At(n, d, Ind) == ind;
    }
    if p.DLeaf? {
      assert At(n, e, Mid(p.i)) == At(n, d, Mid(p.i));
      assert ValidPos(Mid(p.i));
    }
  }

  /** Frame lemma: keeping every reached index block keeps every position's
      block. */
  lemma AllAtKept(n: Inode, d: seq<Block>, e: seq<Block>)
    requires InRange(n, d) && WfBlocks(e) && IndexBlocksKept(n, d, e)
    ensures forall p :: ValidPos(p) ==> At(n, e, p) == At(n, d, p)
  {
    forall p | ValidPos(p)
      ensures At(n, e, p) == At(n, d, p)
    {
      AtKept(n, d, e, p);
    }
  }
}
