/** The data-block zone seen as DATA_BLOCK_COUNT blocks of BLOCK_SIZE bytes,
    and the little-endian uint32_t view used for index blocks (a block of
    ADDR_PER_BLOCK block pointers). */
module Blocks {
  import opened Layout

  type Block = seq<byte>

  predicate WfBlocks(d: seq<Block>)
  {
    |d| == DATA_BLOCK_COUNT && forall b :: 0 <= b < |d| ==> |d[b]| == BLOCK_SIZE
  }

  /** A block whose bytes are all zero (the result of memset(…, 0, BLOCK_SIZE)). */
  function ZeroedBlock(): (z: Block)
    ensures |z| == BLOCK_SIZE && forall k :: 0 <= k < |z| ==> z[k] == 0
  {
    seq(BLOCK_SIZE, _ => 0)
  }

  /** The uint32_t stored little-endian at byte offset `off`. */
  function LoadLE32(s: seq<byte>, off: nat): (v: nat)
    requires off + 4 <= |s|
    ensures v < U32_RANGE
  {
    s[off] as nat + 0x100 * (s[off + 1] as nat + 0x100 * (s[off + 2] as nat + 0x100 * s[off + 3] as nat))
  }

  /** The four base-256 digits of a uint32_t, least significant first. */
  lemma LE32Digits(v: nat)
    requires v < U32_RANGE
    ensures var q1 := v / 0x100; var q2 := q1 / 0x100; var q3 := q2 / 0x100;
      q3 < 0x100 && v == v % 0x100 + 0x100 * (q1 % 0x100 + 0x100 * (q2 % 0x100 + 0x100 * q3))
  {
    var q1 := v / 0x100;
    var q2 := q1 / 0x100;
    var q3 := q2 / 0x100;
    assert v == 0x100 * q1 + v % 0x100;
    assert q1 == 0x100 * q2 + q1 % 0x100;
    assert q2 == 0x100 * q3 + q2 % 0x100;
    assert q1 < 0x100_0000;
    assert q2 < 0x1_0000;
  }

  /** Store a uint32_t little-endian at byte offset `off`. */
  function StoreLE32(s: seq<byte>, off: nat, v: nat): (t: seq<byte>)
    requires off + 4 <= |s| && v < U32_RANGE
    ensures |t| == |s|
    ensures forall k :: 0 <= k < |s| && !(off <= k < off + 4) ==> t[k] == s[k]
    ensures LoadLE32(t, off) == v
  {
    LE32Digits(v);
    var q1 := v / 0x100;
    var q2 := q1 / 0x100;
    var b0 := (v % 0x100) as byte;
    var b1 := (q1 % 0x100) as byte;
    var b2 := (q2 % 0x100) as byte;
    var b3 := (q2 / 0x100) as byte;
    var t := s[off := b0][off + 1 := b1][off + 2 := b2][off + 3 := b3];
    assert t[off] == b0 && t[off + 1] == b1 && t[off + 2] == b2 && t[off + 3] == b3;
    t
  }

  /** Pointer `i` of block `blk`; zero when the block or slot is outside the
      zone, which never happens for the blocks the code dereferences. */
  function Word(d: seq<Block>, blk: nat, i: nat): (v: nat)
    ensures v < U32_RANGE
  {
    if blk < |d| && i < ADDR_PER_BLOCK && |d[blk]| == BLOCK_SIZE
    then LoadLE32(d[blk], 4 * i)
    else 0
  }

  /** `((uint32_t *)(data_blocks + blk * BLOCK_SIZE))[i] = v`. */
  function SetWord(d: seq<Block>, blk: nat, i: nat, v: nat): (e: seq<Block>)
    requires WfBlocks(d) && blk < |d| && i < ADDR_PER_BLOCK && v < U32_RANGE
    ensures WfBlocks(e)
    ensures forall b :: 0 <= b < |d| && b != blk ==> e[b] == d[b]
    ensures Word(e, blk, i) == v
    ensures forall j: nat :: j != i ==> Word(e, blk, j) == Word(d, blk, j)
  {
    var e := d[blk := StoreLE32(d[blk], 4 * i, v)];
    forall j: nat | j != i
      ensures Word(e, blk, j) == Word(d, blk, j)
    {
      if j < ADDR_PER_BLOCK {
        assert e[blk][4 * j .. 4 * j + 4] == d[blk][4 * j .. 4 * j + 4];
      }
    }
    e
  }

  /** `memset(data_blocks + blk * BLOCK_SIZE, 0, BLOCK_SIZE)`. */
  function ZeroBlock(d: seq<Block>, blk: nat): (e: seq<Block>)
    requires WfBlocks(d) && blk < |d|
    ensures WfBlocks(e)
    ensures e[blk] == ZeroedBlock()
    ensures forall b :: 0 <= b < |d| && b != blk ==> e[b] == d[b]
    ensures forall j: nat :: Word(e, blk, j) == 0
  {
    d[blk := ZeroedBlock()]
  }

  /** Copy `src` into block `blk` at byte offset `off` (the effect of
      copy_from_user into the block). */
  function CopyInto(d: seq<Block>, blk: nat, off: nat, src: seq<byte>): (e: seq<Block>)
    requires WfBlocks(d) && blk < |d| && off + |src| <= BLOCK_SIZE
    ensures WfBlocks(e)
    ensures forall b :: 0 <= b < |d| && b != blk ==> e[b] == d[b]
    ensures forall k :: 0 <= k < |src| ==> e[blk][off + k] == src[k]
    ensures forall k :: 0 <= k < BLOCK_SIZE && !(off <= k < off + |src|) ==> e[blk][k] == d[blk][k]
  {
    d[blk := d[blk][..off] + src + d[blk][off + |src|..]]
  }

  /** A word written and read back at the same place gives the value written;
      a write elsewhere leaves it alone. */
  lemma WordAfterSetWord(d: seq<Block>, blk: nat, i: nat, v: nat, blk': nat, j: nat)
    requires WfBlocks(d) && blk < |d| && i < ADDR_PER_BLOCK && v < U32_RANGE
    ensures Word(SetWord(d, blk, i, v), blk', j) == if blk' == blk && j == i then v else Word(d, blk', j)
  {
  }

  /** Zeroing one block then writing a word into another is the same as doing
      it in the opposite order. */
  lemma ZeroSetWordCommute(d: seq<Block>, z: nat, blk: nat, i: nat, v: nat)
    requires WfBlocks(d) && z < |d| && blk < |d| && z != blk && i < ADDR_PER_BLOCK && v < U32_RANGE
    ensures ZeroBlock(SetWord(d, blk, i, v), z) == SetWord(ZeroBlock(d, z), blk, i, v)
  {
  }
}
