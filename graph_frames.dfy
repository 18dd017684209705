/** How the pointer graph of one inode evolves under the individual updates
    `osfs_get_block` performs: marking a block, changing a block no position
    reaches, storing a block number into an empty slot, and storing one into
    an empty pointer of a reached index block. */
module GraphFrames {
  import opened Layout
  import opened Blocks
  import opened PointerMap

  /** The position of inode slot k. */
  function SlotPos(k: nat): (p: Pos)
    requires k < N_BLOCKS
    ensures ValidPos(p)
  {
    if k < N_DIRECT then Direct(k) else if k == IND_SLOT then Ind else Top
  }

  /** The position of pointer j of the index block at q. */
  function Child(q: Pos, j: nat): Pos
    requires IsIndexPos(q)
  {
    match q
    case Ind => IndLeaf(j)
    case Top => Mid(j)
    case Mid(i) => DLeaf(i, j)
  }

  /** Every position that reached a block still reaches the same one. */
  ghost predicate Grows(n: Inode, d: seq<Block>, n': Inode, e: seq<Block>)
    requires WfInode(n) && WfInode(n')
  {
    forall p :: ValidPos(p) && At(n, d, p) != 0 ==> At(n', e, p) == At(n, d, p)
  }

  /** Every reached data (leaf) block keeps its bytes. */
  ghost predicate LeavesKept(n: Inode, d: seq<Block>, e: seq<Block>)
    requires WfInode(n)
  {
    forall p :: ValidPos(p) && !IsIndexPos(p) && At(n, d, p) != 0 && At(n, d, p) < |d| ==>
      At(n, d, p) < |e| && e[At(n, d, p)] == d[At(n, d, p)]
  }

  lemma GrowsTrans(n1: Inode, d1: seq<Block>, n2: Inode, d2: seq<Block>, n3: Inode, d3: seq<Block>)
    requires WfInode(n1) && WfInode(n2) && WfInode(n3)
    requires Grows(n1, d1, n2, d2) && Grows(n2, d2, n3, d3)
    requires LeavesKept(n1, d1, d2) && LeavesKept(n2, d2, d3)
    ensures Grows(n1, d1, n3, d3) && LeavesKept(n1, d1, d3)
  {
  }

  /** A block that is not marked in the bitmap is reached from nowhere. */
  lemma FreeIsUnreached(n: Inode, bm: seq<bool>, d: seq<Block>, v: nat)
    requires Sound(n, bm, d) && v < |bm| && !bm[v]
    ensures Unreached(n, d, v)
  {
  }

  /** Marking more blocks keeps the graph sound. */
  lemma MarkKeepsSound(n: Inode, bm: seq<bool>, d: seq<Block>, v: nat)
    requires Sound(n, bm, d) && v < |bm|
    ensures Sound(n, bm[v := true], d)
  {
  }

  /** Changing a block that no position reaches changes nothing the graph
      shows. */
  lemma ChangeUnreached(n: Inode, bm: seq<bool>, d: seq<Block>, e: seq<Block>, x: nat)
    requires Sound(n, bm, d) && WfBlocks(e) && Unreached(n, d, x)
    requires forall y :: 0 <= y < |d| && y != x ==> e[y] == d[y]
    ensures Sound(n, bm, e)
    ensures forall p :: ValidPos(p) ==> At(n, e, p) == At(n, d, p)
    ensures Grows(n, d, n, e) && LeavesKept(n, d, e)
  {
    assert IndexBlocksKept(n, d, e);
    AllAtKept(n, d, e);
  }

  lemma LinkSlotAt(n: Inode, n': Inode, d: seq<Block>, k: nat, v: nat, p: Pos)
    requires WfInode(n) && WfInode(n') && WfBlocks(d) && k < N_BLOCKS && ValidPos(p)
    requires n.iBlock[k] == 0 && n'.iBlock == n.iBlock[k := v]
    requires k >= N_DIRECT ==> forall i: nat :: Word(d, v, i) == 0
    ensures At(n', d, p) == if p == SlotPos(k) then v else At(n, d, p)
  {
  }

  /** Storing an unreached, marked block into an empty slot links it at that
      slot's position and at no other. */
  lemma LinkSlot(n: Inode, n': Inode, bm: seq<bool>, d: seq<Block>, k: nat, v: nat)
    requires Sound(n, bm, d) && WfInode(n') && k < N_BLOCKS
    requires n.iBlock[k] == 0 && n'.iBlock == n.iBlock[k := v]
    requires v < DATA_BLOCK_COUNT && bm[v] && Unreached(n, d, v)
    requires k >= N_DIRECT ==> forall i: nat :: Word(d, v, i) == 0
    ensures Sound(n', bm, d)
    ensures At(n', d, SlotPos(k)) == v && At(n, d, SlotPos(k)) == 0
    ensures forall p :: ValidPos(p) && p != SlotPos(k) ==> At(n', d, p) == At(n, d, p)
    ensures Grows(n, d, n', d) && LeavesKept(n, d, d)
  {
    forall p | ValidPos(p)
      ensures At(n', d, p) == if p == SlotPos(k) then v else At(n, d, p)
    {
      LinkSlotAt(n, n', d, k, v, p);
    }
  }

  lemma LinkWordAt(n: Inode, bm: seq<bool>, d: seq<Block>, q: Pos, j: nat, v: nat, p: Pos)
    requires Sound(n, bm, d) && ValidPos(q) && IsIndexPos(q) && At(n, d, q) != 0 && j < ADDR_PER_BLOCK
    requires Word(d, At(n, d, q), j) == 0
    requires v < DATA_BLOCK_COUNT && v != At(n, d, q) && ValidPos(p)
    requires q.Top? ==> forall i: nat :: Word(d, v, i) == 0
    ensures At(n, SetWord(d, At(n, d, q), j, v), p) == if p == Child(q, j) then v else At(n, d, p)
    decreases if p.DLeaf? then 1 else 0
  {
    var P := At(n, d, q);
    var e := SetWord(d, P, j, v);
    var ind := n.iBlock[IND_SLOT];
    var top := n.iBlock[DIND_SLOT];
    assert ValidPos(Ind) && ValidPos(Top);
    match p
    case Direct(_) =>
    case Ind =>
    case Top =>
    case IndLeaf(j') =>
      if ind != 0 && !q.Ind? {
        assert At(n, d, Ind) == ind;
        assert ind != P;
      }
    case Mid(i') =>
      if top != 0 && !q.Top? {
        assert At(n, d, Top) == top;
        assert top != P;
      }
    case DLeaf(i', j') =>
      assert ValidPos(Mid(i'));
      LinkWordAt(n, bm, d, q, j, v, Mid(i'));
      var m := At(n, d, Mid(i'));
      if q.Top? && i' == j {
        assert At(n, e, Mid(i')) == v && m == 0;
        assert e[v] == d[v];
        assert Word(e, v, j') == Word(d, v, j') == 0;
      } else if m != 0 && q != Mid(i') {
        assert m != P;
        assert e[m] == d[m];
      } else if m != 0 {
        assert m == P;
      }
  }

  /** Storing an unreached, marked block into an empty pointer of a reached
      index block links it at that pointer's position and at no other; a new
      intermediate block must already be zeroed. */
  lemma LinkWord(n: Inode, bm: seq<bool>, d: seq<Block>, q: Pos, j: nat, v: nat)
    requires Sound(n, bm, d) && ValidPos(q) && IsIndexPos(q) && At(n, d, q) != 0 && j < ADDR_PER_BLOCK
    requires Word(d, At(n, d, q), j) == 0
    requires v < DATA_BLOCK_COUNT && bm[v] && Unreached(n, d, v)
    requires q.Top? ==> forall i: nat :: Word(d, v, i) == 0
    ensures var e := SetWord(d, At(n, d, q), j, v);
      && Sound(n, bm, e) && ValidPos(Child(q, j))
      && At(n, e, Child(q, j)) == v && At(n, d, Child(q, j)) == 0
      && (forall p :: ValidPos(p) && p != Child(q, j) ==> At(n, e, p) == At(n, d, p))
      && Grows(n, d, n, e) && LeavesKept(n, d, e)
  {
    var P := At(n, d, q);
    var e := SetWord(d, P, j, v);
    assert v != P;
    forall p | ValidPos(p)
      ensures At(n, e, p) == if p == Child(q, j) then v else At(n, d, p)
    {
      LinkWordAt(n, bm, d, q, j, v, p);
    }
    assert ValidPos(Child(q, j));
    assert At(n, d, Child(q, j)) == 0 by {
      if q.Mid? {
        assert At(n, d, Mid(q.i)) == P;
      }
    }
    forall p | ValidPos(p) && !IsIndexPos(p) && At(n, d, p) != 0
      ensures e[At(n, d, p)] == d[At(n, d, p)]
    {
      assert At(n, d, p) != P;
    }
  }
}
