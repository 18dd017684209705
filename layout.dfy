/** Constants, record layouts and unsigned-arithmetic helpers shared by both
    versions of the filesystem (the two `osfs.h` headers). Sizes follow the
    C layout rules of an LP64 target (8-byte `long` and pointers). */
module Layout {

  newtype byte = x: int | 0 <= x < 0x100

  // BLOCK_SIZE is not defined by the headers (their 4096 define is commented
  // out), so it is the kernel's own BLOCK_SIZE from linux/fs.h.
  const BLOCK_SIZE: nat := 1024
  const INODE_COUNT: nat := 20
  const DATA_BLOCK_COUNT: nat := 20
  const MAX_FILENAME_LEN: nat := 255
  const OSFS_MAGIC: nat := 0x051AB520
  const ROOT_INODE: nat := 1
  const BITS_PER_LONG: nat := 64
  const LONG_SIZE: nat := 8

  // Multi-level indexing (multi-level version only)
  const N_DIRECT: nat := 12
  const N_INDIRECT: nat := 1
  const N_DINDIRECT: nat := 1
  const N_BLOCKS: nat := N_DIRECT + N_INDIRECT + N_DINDIRECT
  const IND_SLOT: nat := N_DIRECT
  const DIND_SLOT: nat := N_DIRECT + 1
  const POINTER_SIZE: nat := 4
  const ADDR_PER_BLOCK: nat := BLOCK_SIZE / POINTER_SIZE
  /** Logical blocks addressable through the 14-slot pointer table. */
  const MAX_LOGICAL: nat := N_DIRECT + ADDR_PER_BLOCK + ADDR_PER_BLOCK * ADDR_PER_BLOCK

  /** Size in bytes of the data-block zone. */
  const DATA_AREA: nat := DATA_BLOCK_COUNT * BLOCK_SIZE

  // uint32_t arithmetic
  const U32_RANGE: nat := 0x1_0000_0000

  // Error numbers (the source returns their negations)
  const ENOENT: int := 2
  const EIO: int := 5
  const ENOMEM: int := 12
  const EFAULT: int := 14
  const EEXIST: int := 17
  const EINVAL: int := 22
  const EFBIG: int := 27
  const ENOSPC: int := 28
  const ENAMETOOLONG: int := 36

  // File type bits of umode_t
  const S_IFMT: nat := 0xF000
  const S_IFDIR: nat := 0x4000
  const S_IFREG: nat := 0x8000
  const S_IFLNK: nat := 0xA000

  function FileType(mode: nat): nat { (mode % 0x10000) / 0x1000 * 0x1000 }
  predicate IsDir(mode: nat) { FileType(mode) == S_IFDIR }
  predicate IsReg(mode: nat) { FileType(mode) == S_IFREG }
  predicate IsLnk(mode: nat) { FileType(mode) == S_IFLNK }

  /** `x--` on a uint32_t: wraps from 0 to 2^32 - 1. */
  function Dec32(x: nat): (r: nat)
    requires x < U32_RANGE
    ensures r < U32_RANGE && (r + 1) % U32_RANGE == x
  {
    if x == 0 then U32_RANGE - 1 else x - 1
  }

  /** `x++` on a uint32_t: wraps from 2^32 - 1 to 0. */
  function Inc32(x: nat): (r: nat)
    requires x < U32_RANGE
    ensures r < U32_RANGE && r == (x + 1) % U32_RANGE
  {
    if x + 1 == U32_RANGE then 0 else x + 1
  }

  /** Assignment of a wider unsigned value to a uint32_t: keeps the low 32
      bits. */
  function Trunc32(x: nat): (r: nat)
    ensures r < U32_RANGE && (x < U32_RANGE ==> r == x)
    ensures (x - r) % U32_RANGE == 0
  {
    x % U32_RANGE
  }

  /** `x++` applied k times to a uint32_t. */
  function Inc32N(x: nat, k: nat): (r: nat)
    requires x < U32_RANGE
    ensures r < U32_RANGE
  {
    if k == 0 then x else Inc32(Inc32N(x, k - 1))
  }

  /** `x--` applied k times to a uint32_t. */
  function Dec32N(x: nat, k: nat): (r: nat)
    requires x < U32_RANGE
    ensures r < U32_RANGE
  {
    if k == 0 then x else Dec32(Dec32N(x, k - 1))
  }

  /** k increments of a uint32_t add k modulo 2^32. */
  lemma {:induction false} Inc32NMod(x: nat, k: nat)
    requires x < U32_RANGE
    ensures Inc32N(x, k) == (x + k) % U32_RANGE
  {
    if k > 0 {
      Inc32NMod(x, k - 1);
      Inc32Step(Inc32N(x, k - 1), x + k);
      assert Inc32N(x, k) == Inc32(Inc32N(x, k - 1));
    } else {
      assert Inc32N(x, k) == x;
      assert (x + k) % U32_RANGE == x;
    }
  }

  /** A wrapping increment of (z - 1) modulo 2^32 is z modulo 2^32. */
  lemma Inc32Step(a: nat, z: nat)
    requires 0 < z && a < U32_RANGE && a == (z - 1) % U32_RANGE
    ensures Inc32(a) == z % U32_RANGE
  {
    var q := (z - 1) / U32_RANGE;
    assert z - 1 == q * U32_RANGE + a;
    if a + 1 == U32_RANGE {
      assert z == (q + 1) * U32_RANGE + 0;
    } else {
      assert z == q * U32_RANGE + (a + 1);
    }
  }

  /** k decrements of a uint32_t subtract k modulo 2^32. */
  lemma {:induction false} Dec32NMod(x: nat, k: nat)
    requires x < U32_RANGE
    ensures Dec32N(x, k) == (x - k) % U32_RANGE
  {
    if k > 0 {
      Dec32NMod(x, k - 1);
      Dec32Step(Dec32N(x, k - 1), x - k);
      assert Dec32N(x, k) == Dec32(Dec32N(x, k - 1));
    } else {
      assert Dec32N(x, k) == x;
      assert (x - k) % U32_RANGE == x;
    }
  }

  /** A wrapping decrement of (z + 1) modulo 2^32 is z modulo 2^32. */
  lemma Dec32Step(a: nat, z: int)
    requires a < U32_RANGE && a == (z + 1) % U32_RANGE
    ensures Dec32(a) == z % U32_RANGE
  {
    var q := (z + 1) / U32_RANGE;
    assert z + 1 == q * U32_RANGE + a;
    if a == 0 {
      assert z == (q - 1) * U32_RANGE + (U32_RANGE - 1);
    } else {
      assert z == q * U32_RANGE + (a - 1);
    }
  }

  /** Applying the uint32_t increment or decrement once. */
  lemma Once32(x: nat)
    requires x < U32_RANGE
    ensures Inc32N(x, 1) == Inc32(x) && Dec32N(x, 1) == Dec32(x)
  {
    assert Inc32N(x, 0) == x && Dec32N(x, 0) == x;
  }

  /** k increments after j increments are j + k increments. */
  lemma {:induction false} Inc32NAdd(x: nat, j: nat, k: nat)
    requires x < U32_RANGE
    ensures Inc32N(Inc32N(x, j), k) == Inc32N(x, j + k)
  {
    if k > 0 {
      Inc32NAdd(x, j, k - 1);
    }
  }

  /** k decrements after j decrements are j + k decrements. */
  lemma {:induction false} Dec32NAdd(x: nat, j: nat, k: nat)
    requires x < U32_RANGE
    ensures Dec32N(Dec32N(x, j), k) == Dec32N(x, j + k)
  {
    if k > 0 {
      Dec32NAdd(x, j, k - 1);
    }
  }

  function Min(a: nat, b: nat): (m: nat)
    ensures m <= a && m <= b && (m == a || m == b)
  {
    if a <= b then a else b
  }

  /** Offset rounded up to the next multiple of an alignment. */
  function AlignUp(x: nat, align: nat): nat
    requires align > 0
  {
    (x + align - 1) / align * align
  }

  /** BITMAP_SIZE(bits): the number of unsigned longs that hold `bits` bits. */
  function BitmapSize(bits: nat): (words: nat)
    ensures words * BITS_PER_LONG >= bits
    ensures words == 0 || (words - 1) * BITS_PER_LONG < bits
  {
    (bits + BITS_PER_LONG - 1) / BITS_PER_LONG
  }

  // struct osfs_dir_entry { char filename[255]; uint32_t inode_no; }
  const INO_OFFSET: nat := AlignUp(MAX_FILENAME_LEN, 4)
  const DIR_ENTRY_SIZE: nat := AlignUp(INO_OFFSET + 4, 4)
  const MAX_DIR_ENTRIES: nat := BLOCK_SIZE / DIR_ENTRY_SIZE

  // struct osfs_inode: 3 u32, 2 u16, 2 u32, then 3 timespec64 (16 bytes,
  // 8-aligned), then the block pointer(s)
  const TIMES_OFFSET: nat := AlignUp(3 * 4 + 2 * 2 + 2 * 4, 8)
  const I_BLOCK_OFFSET: nat := TIMES_OFFSET + 3 * 16
  const BONUS_INODE_SIZE: nat := AlignUp(I_BLOCK_OFFSET + N_BLOCKS * 4, 8)
  const TEMPLATE_INODE_SIZE: nat := AlignUp(I_BLOCK_OFFSET + 4, 8)
  // struct osfs_sb_info: six u32 then four pointers
  const SB_INFO_SIZE: nat := AlignUp(AlignUp(6 * 4, 8) + 4 * 8, 8)

  // The single-block version's one memory region, carved back to back:
  // superblock, inode bitmap, block bitmap, inode table, data zone.
  const INODE_BITMAP_OFFSET: nat := SB_INFO_SIZE
  const BLOCK_BITMAP_OFFSET: nat := INODE_BITMAP_OFFSET + BitmapSize(INODE_COUNT) * LONG_SIZE
  const INODE_TABLE_OFFSET: nat := BLOCK_BITMAP_OFFSET + BitmapSize(DATA_BLOCK_COUNT) * LONG_SIZE
  const DATA_OFFSET: nat := INODE_TABLE_OFFSET + INODE_COUNT * TEMPLATE_INODE_SIZE
  const REGION_SIZE: nat := DATA_OFFSET + DATA_AREA

  /** The pointer table has 14 slots: 0-11 direct, 12 single-indirect,
      13 double-indirect. */
  lemma PointerTableShape()
    ensures N_BLOCKS == 14 && N_DIRECT == 12
    ensures IND_SLOT == 12 && DIND_SLOT == 13 && IND_SLOT < DIND_SLOT < N_BLOCKS
  {
  }

  /** An index block holds BLOCK_SIZE / 4 pointers, so the pointer table
      reaches 12 + A + A*A logical blocks. */
  lemma AddressableRange()
    ensures ADDR_PER_BLOCK == 256 && ADDR_PER_BLOCK * POINTER_SIZE == BLOCK_SIZE
    ensures MAX_LOGICAL == 12 + 256 + 65536
    ensures MAX_LOGICAL * BLOCK_SIZE < U32_RANGE
  {
  }

  /** One directory block holds MAX_DIR_ENTRIES whole entries and no more. */
  lemma DirEntryLayout()
    ensures INO_OFFSET == 256 && DIR_ENTRY_SIZE == 260
    ensures MAX_DIR_ENTRIES == 3
    ensures MAX_DIR_ENTRIES * DIR_ENTRY_SIZE <= BLOCK_SIZE < (MAX_DIR_ENTRIES + 1) * DIR_ENTRY_SIZE
  {
  }

  /** A name and its NUL terminator fit in the 255-byte field iff the name
      has at most 254 bytes; the terminator of a 255-byte name lands on the
      padding byte between the field and `inode_no`. */
  lemma NameFieldFits(n: nat)
    ensures n + 1 <= MAX_FILENAME_LEN <==> n <= 254
    ensures n == MAX_FILENAME_LEN ==> MAX_FILENAME_LEN <= n < INO_OFFSET
  {
  }

  /** Fixed capacities, root inode number and record sizes. */
  lemma Capacities()
    ensures INODE_COUNT == 20 && DATA_BLOCK_COUNT == 20 && ROOT_INODE == 1
    ensures BitmapSize(INODE_COUNT) == 1 && BitmapSize(DATA_BLOCK_COUNT) == 1
    ensures BONUS_INODE_SIZE == 128 && TEMPLATE_INODE_SIZE == 80 && SB_INFO_SIZE == 56
  {
  }

  /** The single-block version's region: where each part starts, its total
      size, and every part starting on an 8-byte boundary, so each pointer
      carved from it is aligned for what it points to. */
  lemma RegionLayout()
    ensures INODE_BITMAP_OFFSET == 56 && BLOCK_BITMAP_OFFSET == 64
    ensures INODE_TABLE_OFFSET == 72 && DATA_OFFSET == 1672
    ensures REGION_SIZE == SB_INFO_SIZE + 2 * LONG_SIZE + INODE_COUNT * TEMPLATE_INODE_SIZE + DATA_BLOCK_COUNT * BLOCK_SIZE
    ensures REGION_SIZE == 22152
    ensures INODE_BITMAP_OFFSET % 8 == 0 && BLOCK_BITMAP_OFFSET % 8 == 0
    ensures INODE_TABLE_OFFSET % 8 == 0 && DATA_OFFSET % 8 == 0
  {
    Capacities();
  }
}
