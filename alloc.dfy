/** The superblock's allocation state, the inode-table lookup and the two
    bitmap allocators shared by both versions (`osfs_get_osfs_inode`,
    `osfs_get_free_inode`, `osfs_alloc_data_block`, `osfs_free_data_block`
    in each version's `inode.c`). */
module Alloc {
  import opened Layout

  datatype Option<T> = None | Some(value: T)

  /** `osfs_get_osfs_inode`: the table slot of ino, or none (NULL) for 0 and
      for numbers at or past the inode count. */
  function GetOsfsInode(inodeCount: nat, ino: nat): (r: Option<nat>)
    ensures r.Some? <==> 0 < ino < inodeCount
    ensures r.Some? ==> r.value == ino
  {
    if ino == 0 || ino >= inodeCount then None else Some(ino)
  }

  /** The lowest clear bit in [lo, hi), if there is one. */
  function FirstClear(bm: seq<bool>, lo: nat, hi: nat): (r: Option<nat>)
    requires hi <= |bm|
    ensures r.None? <==> forall k :: lo <= k < hi ==> bm[k]
    ensures r.Some? ==> lo <= r.value < hi && !bm[r.value]
    ensures r.Some? ==> forall k :: lo <= k < r.value ==> bm[k]
    decreases hi - lo
  {
    if lo >= hi then None
    else if !bm[lo] then Some(lo)
    else FirstClear(bm, lo + 1, hi)
  }

  /** Number of clear bits in [lo, hi). */
  function CountClear(bm: seq<bool>, lo: nat, hi: nat): nat
    requires hi <= |bm|
    decreases hi - lo
  {
    if lo >= hi then 0
    else (if bm[lo] then 0 else 1) + CountClear(bm, lo + 1, hi)
  }

  /** Outcome of one bitmap scan: the claimed number with the new bitmap and
      counter, or -ENOSPC. */
  datatype AllocResult = Allocated(no: nat, bitmap: seq<bool>, nrFree: nat) | NoSpace

  /** What a scan over [lo, hi) does to a bitmap and its free counter: claim
      the lowest clear bit, set it, and decrement the counter as a uint32_t. */
  function AllocSpec(bm: seq<bool>, lo: nat, hi: nat, nrFree: nat): (r: AllocResult)
    requires hi <= |bm| && nrFree < U32_RANGE
    ensures r.NoSpace? <==> forall k :: lo <= k < hi ==> bm[k]
    ensures r.Allocated? ==> lo <= r.no < hi && !bm[r.no] && forall k :: lo <= k < r.no ==> bm[k]
    ensures r.Allocated? ==> r.bitmap == bm[r.no := true] && r.nrFree == Dec32(nrFree)
  {
    match FirstClear(bm, lo, hi)
    case None => NoSpace
    case Some(no) => Allocated(no, bm[no := true], Dec32(nrFree))
  }

  /** Freeing the number just claimed restores both the bitmap and the
      counter. */
  lemma AllocThenFree(bm: seq<bool>, lo: nat, hi: nat, nrFree: nat)
    requires hi <= |bm| && nrFree < U32_RANGE
    ensures var r := AllocSpec(bm, lo, hi, nrFree);
      r.Allocated? ==> r.bitmap[r.no := false] == bm && Inc32(r.nrFree) == nrFree
  {
  }

  /** After freeing b, the next scan claims b exactly when every bit below b
      in the range is set; otherwise it claims a lower one. */
  lemma FreeThenAlloc(bm: seq<bool>, lo: nat, hi: nat, b: nat, nrFree: nat)
    requires lo <= b < hi <= |bm| && nrFree < U32_RANGE
    ensures var r := AllocSpec(bm[b := false], lo, hi, nrFree);
      r.Allocated? && r.no <= b && (r.no == b <==> forall k :: lo <= k < b ==> bm[k])
  {
    var bm' := bm[b := false];
    var r := AllocSpec(bm', lo, hi, nrFree);
    assert !bm'[b];
    if forall k :: lo <= k < b ==> bm[k] {
      assert forall k :: lo <= k < b ==> bm'[k];
    } else {
      var k :| lo <= k < b && !bm[k];
      assert !bm'[k];
    }
  }

  /** Claim, free, claim again with nothing in between: the second scan
      returns the same number and leaves the same state as the first. */
  lemma AllocFreeAlloc(bm: seq<bool>, lo: nat, hi: nat, nrFree: nat)
    requires hi <= |bm| && nrFree < U32_RANGE
    ensures var r := AllocSpec(bm, lo, hi, nrFree);
      r.Allocated? ==> AllocSpec(r.bitmap[r.no := false], lo, hi, Inc32(r.nrFree)) == r
  {
    var r := AllocSpec(bm, lo, hi, nrFree);
    if r.Allocated? {
      assert r.bitmap[r.no := false] == bm;
    }
  }

  /** Setting one clear bit inside the range lowers the clear count by one. */
  lemma {:induction false} CountClearSet(bm: seq<bool>, lo: nat, hi: nat, i: nat)
    requires lo <= i < hi <= |bm| && !bm[i]
    ensures CountClear(bm[i := true], lo, hi) + 1 == CountClear(bm, lo, hi)
    decreases hi - lo
  {
    if lo < i {
      CountClearSet(bm, lo + 1, hi, i);
    } else {
      CountClearSame(bm, bm[i := true], lo + 1, hi);
    }
  }

  lemma {:induction false} CountClearSame(a: seq<bool>, b: seq<bool>, lo: nat, hi: nat)
    requires hi <= |a| && hi <= |b| && forall k :: lo <= k < hi ==> a[k] == b[k]
    ensures CountClear(a, lo, hi) == CountClear(b, lo, hi)
    decreases hi - lo
  {
    if lo < hi {
      CountClearSame(a, b, lo + 1, hi);
    }
  }

  /** A scan fails exactly when no bit in the range is clear. */
  lemma {:induction false} NoSpaceIffNoneClear(bm: seq<bool>, lo: nat, hi: nat, nrFree: nat)
    requires hi <= |bm| && nrFree < U32_RANGE
    ensures AllocSpec(bm, lo, hi, nrFree).NoSpace? <==> CountClear(bm, lo, hi) == 0
    decreases hi - lo
  {
    if lo < hi {
      NoSpaceIffNoneClear(bm, lo + 1, hi, nrFree);
    }
  }

  /** Each successful scan flips exactly one bit from clear to set, lowers its
      counter by exactly one and uses up one clear bit of the range. */
  lemma AllocFlipsOneBit(bm: seq<bool>, lo: nat, hi: nat, nrFree: nat)
    requires hi <= |bm| && nrFree < U32_RANGE
    ensures var r := AllocSpec(bm, lo, hi, nrFree);
      r.Allocated? ==>
        && |r.bitmap| == |bm| && !bm[r.no] && r.bitmap[r.no]
        && (forall k :: 0 <= k < |bm| && k != r.no ==> r.bitmap[k] == bm[k])
        && (r.nrFree + 1) % U32_RANGE == nrFree
        && CountClear(r.bitmap, lo, hi) + 1 == CountClear(bm, lo, hi)
  {
    var r := AllocSpec(bm, lo, hi, nrFree);
    if r.Allocated? {
      CountClearSet(bm, lo, hi, r.no);
    }
  }

  /** The superblock information kept in memory (`struct osfs_sb_info`). The
      two bitmaps are one unsigned long each (64 bits, of which the first 20
      are in use); the inode table and the data blocks belong to each
      version's filesystem object. */
  class SbInfo {
    var magic: nat
    var blockSize: nat
    var inodeCount: nat
    var blockCount: nat
    var nrFreeInodes: nat
    var nrFreeBlocks: nat
    var inodeBitmap: seq<bool>
    var blockBitmap: seq<bool>

    /** Totals as set at mount time, bitmaps of BITMAP_SIZE words, uint32_t
        counters. */
    ghost predicate Valid()
      reads this
    {
      && magic == OSFS_MAGIC && blockSize == BLOCK_SIZE
      && inodeCount == INODE_COUNT && blockCount == DATA_BLOCK_COUNT
      && |inodeBitmap| == BitmapSize(INODE_COUNT) * BITS_PER_LONG
      && |blockBitmap| == BitmapSize(DATA_BLOCK_COUNT) * BITS_PER_LONG
      && nrFreeInodes < U32_RANGE && nrFreeBlocks < U32_RANGE
    }

    /** The freshly cleared region: every field and bit zero. */
    constructor Zeroed()
      ensures magic == 0 && blockSize == 0 && inodeCount == 0 && blockCount == 0
      ensures nrFreeInodes == 0 && nrFreeBlocks == 0
      ensures inodeBitmap == seq(BitmapSize(INODE_COUNT) * BITS_PER_LONG, _ => false)
      ensures blockBitmap == seq(BitmapSize(DATA_BLOCK_COUNT) * BITS_PER_LONG, _ => false)
    {
      magic, blockSize, inodeCount, blockCount := 0, 0, 0, 0;
      nrFreeInodes, nrFreeBlocks := 0, 0;
      inodeBitmap := seq(BitmapSize(INODE_COUNT) * BITS_PER_LONG, _ => false);
      blockBitmap := seq(BitmapSize(DATA_BLOCK_COUNT) * BITS_PER_LONG, _ => false);
    }

    /** `osfs_get_free_inode`: scan inode numbers from 1 upwards. */
    method GetFreeInode() returns (ret: int)
      requires Valid()
      modifies this
      ensures Valid()
      ensures var r := AllocSpec(old(inodeBitmap), 1, inodeCount, old(nrFreeInodes));
        if r.Allocated? then ret == r.no && inodeBitmap == r.bitmap && nrFreeInodes == r.nrFree
        else ret == -ENOSPC && inodeBitmap == old(inodeBitmap) && nrFreeInodes == old(nrFreeInodes)
      ensures blockBitmap == old(blockBitmap) && nrFreeBlocks == old(nrFreeBlocks)
    {
      var ino := 1;
      while ino < inodeCount
        invariant 1 <= ino <= inodeCount
        invariant forall k :: 1 <= k < ino ==> inodeBitmap[k]
      {
        if !inodeBitmap[ino] {
          inodeBitmap := inodeBitmap[ino := true];
          nrFreeInodes := Dec32(nrFreeInodes);
          return ino;
        }
        ino := ino + 1;
      }
      return -ENOSPC;
    }

    /** `osfs_alloc_data_block`: scan block numbers from 0 upwards; `no` is
        the number stored through `block_no` on success. */
    method AllocDataBlock() returns (ret: int, no: nat)
      requires Valid()
      modifies this
      ensures Valid()
      ensures var r := AllocSpec(old(blockBitmap), 0, blockCount, old(nrFreeBlocks));
        if r.Allocated? then ret == 0 && no == r.no && blockBitmap == r.bitmap && nrFreeBlocks == r.nrFree
        else ret == -ENOSPC && no == 0 && blockBitmap == old(blockBitmap) && nrFreeBlocks == old(nrFreeBlocks)
      ensures inodeBitmap == old(inodeBitmap) && nrFreeInodes == old(nrFreeInodes)
    {
      var i := 0;
      while i < blockCount
        invariant 0 <= i <= blockCount
        invariant forall k :: 0 <= k < i ==> blockBitmap[k]
      {
        if !blockBitmap[i] {
          blockBitmap := blockBitmap[i := true];
          nrFreeBlocks := Dec32(nrFreeBlocks);
          return 0, i;
        }
        i := i + 1;
      }
      return -ENOSPC, 0;
    }

    /** `osfs_free_data_block`: clear the bit and count the block as free,
        whether or not it was in use. */
    method FreeDataBlock(b: nat)
      requires Valid() && b < blockCount
      modifies this
      ensures Valid()
      ensures blockBitmap == old(blockBitmap)[b := false] && nrFreeBlocks == Inc32(old(nrFreeBlocks))
      ensures inodeBitmap == old(inodeBitmap) && nrFreeInodes == old(nrFreeInodes)
    {
      blockBitmap := blockBitmap[b := false];
      nrFreeBlocks := Inc32(nrFreeBlocks);
    }
  }
}
