/** Directory entries: a directory's data block holds up to MAX_DIR_ENTRIES
    `osfs_dir_entry` records of DIR_ENTRY_SIZE bytes each (a 255-byte
    `filename` field, one padding byte, and a little-endian `inode_no` at
    INO_OFFSET); the first `i_size / DIR_ENTRY_SIZE` of them are in use.
    Both versions of the file system share this layout and the lookup,
    insertion and listing code that works on it. */
module DirEntries {
  import opened Layout
  import opened Blocks
  import opened Alloc

  /** `strlen(b + off)`: the bytes before the first NUL at or after off. The
      model stops at the end of the block. */
  function CStrLen(b: seq<byte>, off: nat): (len: nat)
    requires off <= |b|
    ensures off + len <= |b|
    ensures forall k :: off <= k < off + len ==> b[k] != 0
    ensures off + len == |b| || b[off + len] == 0
    decreases |b| - off
  {
    if off == |b| || b[off] == 0 then 0 else 1 + CStrLen(b, off + 1)
  }

  /** The C string length is the one position of the first NUL. */
  lemma CStrLenIs(b: seq<byte>, off: nat, len: nat)
    requires off + len < |b| && b[off + len] == 0
    requires forall k :: off <= k < off + len ==> b[k] != 0
    ensures CStrLen(b, off) == len
  {
  }

  /** `strncmp(b + off, name, |name|) == 0`, from character k on: equal
      characters up to |name| or up to a NUL in both. */
  function StrNEq(b: seq<byte>, off: nat, name: seq<byte>, k: nat): bool
    requires off <= |b| && k <= |name|
    decreases |name| - k
  {
    if k == |name| then true
    else if off + k >= |b| then false
    else if b[off + k] != name[k] then false
    else if name[k] == 0 then true
    else StrNEq(b, off, name, k + 1)
  }

  /** Byte offset of entry i in the directory block. */
  function EntryOffset(i: nat): nat
  {
    i * DIR_ENTRY_SIZE
  }

  /** One more entry's worth of size counts one more entry. */
  lemma EntryCountGrows(size: nat)
    ensures (size + DIR_ENTRY_SIZE) / DIR_ENTRY_SIZE == size / DIR_ENTRY_SIZE + 1
  {
    DirEntryLayout();
  }

  /** A size counting fewer than MAX_DIR_ENTRIES entries is below the size
      of MAX_DIR_ENTRIES entries. */
  lemma EntryCountBound(size: nat)
    requires size / DIR_ENTRY_SIZE < MAX_DIR_ENTRIES
    ensures size < MAX_DIR_ENTRIES * DIR_ENTRY_SIZE <= BLOCK_SIZE
  {
    DirEntryLayout();
  }

  /** A directory block and an entry count it can hold. */
  predicate WfDir(b: seq<byte>, count: nat)
  {
    |b| == BLOCK_SIZE && count <= MAX_DIR_ENTRIES
  }

  lemma EntryInBlock(i: nat)
    requires i < MAX_DIR_ENTRIES
    ensures EntryOffset(i) + DIR_ENTRY_SIZE <= BLOCK_SIZE
    ensures EntryOffset(i) + INO_OFFSET + 4 == EntryOffset(i) + DIR_ENTRY_SIZE
  {
    DirEntryLayout();
  }

  /** The name `dir_emit` and the comparisons see: `strlen` bytes of
      `filename`. */
  function EntryName(b: seq<byte>, i: nat): (name: seq<byte>)
    requires |b| == BLOCK_SIZE && i < MAX_DIR_ENTRIES
    ensures forall k :: 0 <= k < |name| ==> name[k] != 0
  {
    EntryInBlock(i);
    b[EntryOffset(i) .. EntryOffset(i) + CStrLen(b, EntryOffset(i))]
  }

  /** `inode_no` of entry i. */
  function EntryIno(b: seq<byte>, i: nat): (ino: nat)
    requires |b| == BLOCK_SIZE && i < MAX_DIR_ENTRIES
    ensures ino < U32_RANGE
  {
    EntryInBlock(i);
    LoadLE32(b, EntryOffset(i) + INO_OFFSET)
  }

  /** The test the lookup and duplicate loops apply to entry i:
      `strlen(filename) == len && strncmp(filename, name, len) == 0`. */
  predicate EntryMatches(b: seq<byte>, i: nat, name: seq<byte>)
    requires |b| == BLOCK_SIZE && i < MAX_DIR_ENTRIES
  {
    EntryInBlock(i);
    CStrLen(b, EntryOffset(i)) == |name| && StrNEq(b, EntryOffset(i), name, 0)
  }

  lemma {:induction false} StrNEqSuffix(b: seq<byte>, off: nat, name: seq<byte>, k: nat)
    requires off + |name| <= |b| && k <= |name|
    requires forall m :: off <= m < off + |name| ==> b[m] != 0
    ensures StrNEq(b, off, name, k) <==> b[off + k .. off + |name|] == name[k..]
    decreases |name| - k
  {
    if k < |name| {
      StrNEqSuffix(b, off, name, k + 1);
      assert b[off + k .. off + |name|] == [b[off + k]] + b[off + k + 1 .. off + |name|];
      assert name[k..] == [name[k]] + name[k + 1..];
    }
  }

  /** The C test accepts entry i exactly when its name is `name`. */
  lemma MatchIffName(b: seq<byte>, i: nat, name: seq<byte>)
    requires |b| == BLOCK_SIZE && i < MAX_DIR_ENTRIES
    ensures EntryMatches(b, i, name) <==> EntryName(b, i) == name
  {
    EntryInBlock(i);
    var off := EntryOffset(i);
    if CStrLen(b, off) == |name| {
      StrNEqSuffix(b, off, name, 0);
    }
  }

  /** The first entry before `count`, from i on, whose name is `name`. */
  function FindFrom(b: seq<byte>, count: nat, name: seq<byte>, i: nat): (r: Option<nat>)
    requires WfDir(b, count) && i <= count
    ensures r.Some? ==> i <= r.value < count && EntryName(b, r.value) == name
    ensures r.Some? ==> forall j :: i <= j < r.value ==> EntryName(b, j) != name
    ensures r.None? ==> forall j :: i <= j < count ==> EntryName(b, j) != name
    decreases count - i
  {
    if i == count then None
    else
      MatchIffName(b, i, name);
      if EntryMatches(b, i, name) then Some(i) else FindFrom(b, count, name, i + 1)
  }

  /** The first in-use entry named `name`, if any. */
  function FindEntry(b: seq<byte>, count: nat, name: seq<byte>): Option<nat>
    requires WfDir(b, count)
  {
    FindFrom(b, count, name, 0)
  }

  /** The scan shared by `osfs_lookup` and the duplicate check of
      `osfs_add_dir_entry`. */
  method ScanEntries(b: seq<byte>, count: nat, name: seq<byte>) returns (r: Option<nat>)
    requires WfDir(b, count)
    ensures r == FindEntry(b, count, name)
    ensures r.Some? ==> r.value < count && EntryName(b, r.value) == name
    ensures r.None? <==> forall j :: 0 <= j < count ==> EntryName(b, j) != name
  {
    var i := 0;
    while i < count
      invariant 0 <= i <= count
      invariant FindEntry(b, count, name) == FindFrom(b, count, name, i)
    {
      EntryInBlock(i);
      if CStrLen(b, EntryOffset(i)) == |name| && StrNEq(b, EntryOffset(i), name, 0) {
        return Some(i);
      }
      i := i + 1;
    }
    return None;
  }

  /** A name the VFS can pass in: no NUL byte. */
  predicate NoNul(name: seq<byte>)
  {
    forall k :: 0 <= k < |name| ==> name[k] != 0
  }

  /** `strncpy(dst, name, |name|)`: the bytes of name up to its first NUL,
      then NUL padding up to |name| bytes. */
  function StrNCpy(name: seq<byte>): (r: seq<byte>)
    ensures |r| == |name|
    ensures NoNul(name) ==> r == name
  {
    if name == [] then []
    else if name[0] == 0 then seq(|name|, _ => 0 as byte)
    else [name[0]] + StrNCpy(name[1..])
  }

  /** Every in-use entry's name ends inside its own 256 name-and-padding
      bytes: what makes each entry's name independent of its neighbours. */
  predicate Terminated(b: seq<byte>, count: nat)
    requires WfDir(b, count)
  {
    forall i :: 0 <= i < count ==> EntryOffset(i) <= EntryOffset(i) + CStrLen(b, EntryOffset(i)) < EntryOffset(i) + INO_OFFSET
  }

  /** The name bytes of an entry at offset off: strncpy of the name, then
      the NUL stored at `filename[len]`. */
  function Placed(b: seq<byte>, off: nat, name: seq<byte>): (r: seq<byte>)
    requires off + |name| < |b|
    ensures |r| == |b|
    ensures forall k :: 0 <= k < |b| && !(off <= k <= off + |name|) ==> r[k] == b[k]
    ensures r[off + |name|] == 0
    ensures NoNul(name) ==> forall k :: 0 <= k < |name| ==> r[off + k] == name[k]
  {
    (b[..off] + StrNCpy(name) + b[off + |name|..])[off + |name| := 0]
  }

  /** Entry i written as `osfs_add_dir_entry` writes it: strncpy of the
      name, a NUL at `filename[len]`, then `inode_no`. */
  function PutEntry(b: seq<byte>, i: nat, name: seq<byte>, ino: nat): (r: seq<byte>)
    requires |b| == BLOCK_SIZE && i < MAX_DIR_ENTRIES && |name| <= MAX_FILENAME_LEN && ino < U32_RANGE
    ensures |r| == BLOCK_SIZE
    ensures forall k :: 0 <= k < BLOCK_SIZE && !(EntryOffset(i) <= k < EntryOffset(i) + DIR_ENTRY_SIZE) ==> r[k] == b[k]
    ensures EntryIno(r, i) == ino
    ensures EntryOffset(i) + CStrLen(r, EntryOffset(i)) < EntryOffset(i) + INO_OFFSET
    ensures NoNul(name) ==> EntryName(r, i) == name
  {
    EntryInBlock(i);
    DirEntryLayout();
    var off := EntryOffset(i);
    var r := StoreLE32(Placed(b, off, name), off + INO_OFFSET, ino);
    PutEntryName(r, off, name);
    r
  }

  lemma PutEntryName(r: seq<byte>, off: nat, name: seq<byte>)
    requires off + |name| < |r| && r[off + |name|] == 0
    ensures off + CStrLen(r, off) <= off + |name|
    ensures NoNul(name) && (forall k :: 0 <= k < |name| ==> r[off + k] == name[k]) ==>
      CStrLen(r, off) == |name| && r[off .. off + |name|] == name
  {
    if NoNul(name) && (forall k :: 0 <= k < |name| ==> r[off + k] == name[k]) {
      forall k | off <= k < off + |name|
        ensures r[k] != 0
      {
        assert r[off + (k - off)] == name[k - off];
      }
      CStrLenIs(r, off, |name|);
    }
  }

  /** The name and inode number of entry j, read back after a write that
      left entry j's bytes alone. */
  lemma EntryKept(b: seq<byte>, r: seq<byte>, j: nat)
    requires |b| == BLOCK_SIZE && |r| == BLOCK_SIZE && j < MAX_DIR_ENTRIES
    requires EntryOffset(j) + CStrLen(b, EntryOffset(j)) < EntryOffset(j) + INO_OFFSET
    requires forall k :: EntryOffset(j) <= k < EntryOffset(j) + DIR_ENTRY_SIZE ==> r[k] == b[k]
    ensures EntryName(r, j) == EntryName(b, j) && EntryIno(r, j) == EntryIno(b, j)
    ensures EntryOffset(j) + CStrLen(r, EntryOffset(j)) < EntryOffset(j) + INO_OFFSET
  {
    EntryInBlock(j);
    var off := EntryOffset(j);
    var len := CStrLen(b, off);
    CStrLenIs(r, off, len);
    assert r[off .. off + len] == b[off .. off + len];
    assert r[off + INO_OFFSET .. off + INO_OFFSET + 4] == b[off + INO_OFFSET .. off + INO_OFFSET + 4];
  }

  /** The source's test on entry j for a name of at most MAX_FILENAME_LEN
      bytes reads only entry j's own bytes: a match needs a NUL inside the
      name field. So two blocks that agree on entry j agree on the test,
      whether or not the name in the field is terminated. */
  lemma EntryMatchKept(b: seq<byte>, r: seq<byte>, j: nat, other: seq<byte>)
    requires |b| == BLOCK_SIZE && |r| == BLOCK_SIZE && j < MAX_DIR_ENTRIES && |other| <= MAX_FILENAME_LEN
    requires forall k :: EntryOffset(j) <= k < EntryOffset(j) + DIR_ENTRY_SIZE ==> r[k] == b[k]
    ensures EntryMatches(r, j, other) <==> EntryMatches(b, j, other)
    ensures EntryIno(r, j) == EntryIno(b, j)
  {
    EntryInBlock(j);
    DirEntryLayout();
    var off := EntryOffset(j);
    MatchIffName(b, j, other);
    MatchIffName(r, j, other);
    if EntryName(b, j) == other {
      EntryKept(b, r, j);
    }
    if EntryName(r, j) == other {
      EntryKept(r, b, j);
    }
    assert r[off + INO_OFFSET .. off + INO_OFFSET + 4] == b[off + INO_OFFSET .. off + INO_OFFSET + 4];
  }

  /** Appending entry `count` leaves every earlier entry's number, and the
      source's test on it for every name of at most MAX_FILENAME_LEN bytes.
      When every in-use name was terminated inside its field, every earlier
      name reads back as it was and the new one is terminated too. */
  lemma AppendKeeps(b: seq<byte>, count: nat, name: seq<byte>, ino: nat)
    requires WfDir(b, count) && count < MAX_DIR_ENTRIES
    requires |name| <= MAX_FILENAME_LEN && ino < U32_RANGE
    ensures var r := PutEntry(b, count, name, ino);
      && (forall j :: 0 <= j < count ==> EntryIno(r, j) == EntryIno(b, j))
      && (forall j, other :: 0 <= j < count && |other| <= MAX_FILENAME_LEN ==>
            (EntryMatches(r, j, other) <==> EntryMatches(b, j, other)))
      && (Terminated(b, count) ==>
            && Terminated(r, count + 1)
            && forall j :: 0 <= j < count ==> EntryName(r, j) == EntryName(b, j))
  {
    DirEntryLayout();
    var r := PutEntry(b, count, name, ino);
    forall j, other | 0 <= j < count && |other| <= MAX_FILENAME_LEN
      ensures EntryMatches(r, j, other) <==> EntryMatches(b, j, other)
      ensures EntryIno(r, j) == EntryIno(b, j)
    {
      assert EntryOffset(j) + DIR_ENTRY_SIZE <= EntryOffset(count);
      EntryMatchKept(b, r, j, other);
    }
    forall j | 0 <= j < count
      ensures EntryIno(r, j) == EntryIno(b, j)
    {
      EntryMatchKept(b, r, j, []);
    }
    if Terminated(b, count) {
      forall j | 0 <= j < count
        ensures EntryName(r, j) == EntryName(b, j)
        ensures EntryOffset(j) + CStrLen(r, EntryOffset(j)) < EntryOffset(j) + INO_OFFSET
      {
        assert EntryOffset(j) + DIR_ENTRY_SIZE <= EntryOffset(count);
        EntryKept(b, r, j);
      }
    }
  }

  /** Lookups of one name in a directory grown by one entry, when the
      source's test gives the same answer on every earlier entry: the name
      is found at the new entry if it is the new name and was absent
      before; any other name is found where it was. */
  lemma FindAfterAppend(b: seq<byte>, r: seq<byte>, count: nat, other: seq<byte>)
    requires WfDir(b, count) && WfDir(r, count + 1)
    requires forall j :: 0 <= j < count ==> (EntryMatches(r, j, other) <==> EntryMatches(b, j, other))
    ensures other != EntryName(r, count) ==> FindEntry(r, count + 1, other) == FindEntry(b, count, other)
    ensures other == EntryName(r, count) && FindEntry(b, count, other).None? ==> FindEntry(r, count + 1, other) == Some(count)
  {
    forall j | 0 <= j < count
      ensures EntryName(r, j) == other <==> EntryName(b, j) == other
    {
      MatchIffName(r, j, other);
      MatchIffName(b, j, other);
    }
    var x := FindEntry(r, count + 1, other);
    var y := FindEntry(b, count, other);
    if x.Some? && x.value < count {
      assert y == Some(x.value);
    } else if x.Some? {
      assert y.None?;
    } else {
      assert y.None?;
    }
  }

  /** After appending an entry, a lookup of a name other than the new one
      is found where it was, provided the name has at most
      MAX_FILENAME_LEN bytes or every in-use name was terminated inside
      its field; every earlier entry keeps its number. */
  lemma AppendFindsOther(b: seq<byte>, count: nat, name: seq<byte>, ino: nat, other: seq<byte>)
    requires WfDir(b, count) && count < MAX_DIR_ENTRIES
    requires NoNul(name) && |name| <= MAX_FILENAME_LEN && ino < U32_RANGE
    requires other != name && (|other| <= MAX_FILENAME_LEN || Terminated(b, count))
    ensures var r := PutEntry(b, count, name, ino);
      && WfDir(r, count + 1)
      && FindEntry(r, count + 1, other) == FindEntry(b, count, other)
      && forall j :: 0 <= j < count ==> EntryIno(r, j) == EntryIno(b, j)
  {
    var r := PutEntry(b, count, name, ino);
    AppendKeeps(b, count, name, ino);
    forall j | 0 <= j < count
      ensures EntryMatches(r, j, other) <==> EntryMatches(b, j, other)
    {
      if |other| > MAX_FILENAME_LEN {
        MatchIffName(r, j, other);
        MatchIffName(b, j, other);
      }
    }
    FindAfterAppend(b, r, count, other);
  }

  /** Appending an entry for a name not yet present: the new entry is found
      under its name with its inode number, every earlier entry keeps its
      number, and every other name of at most MAX_FILENAME_LEN bytes is
      found where it was. When every in-use name was terminated inside its
      field, the names stay terminated, every earlier name reads back as
      before, and every other name of any length is found where it was. */
  lemma AppendThenFind(b: seq<byte>, count: nat, name: seq<byte>, ino: nat)
    requires WfDir(b, count) && count < MAX_DIR_ENTRIES
    requires NoNul(name) && |name| <= MAX_FILENAME_LEN && ino < U32_RANGE
    requires FindEntry(b, count, name).None?
    ensures var r := PutEntry(b, count, name, ino);
      && WfDir(r, count + 1)
      && FindEntry(r, count + 1, name) == Some(count) && EntryIno(r, count) == ino
      && (forall j :: 0 <= j < count ==> EntryIno(r, j) == EntryIno(b, j))
      && (forall other :: other != name && |other| <= MAX_FILENAME_LEN ==>
            FindEntry(r, count + 1, other) == FindEntry(b, count, other))
      && (Terminated(b, count) ==>
            && Terminated(r, count + 1)
            && (forall j :: 0 <= j < count ==> EntryName(r, j) == EntryName(b, j))
            && (forall other :: other != name ==> FindEntry(r, count + 1, other) == FindEntry(b, count, other)))
  {
    var r := PutEntry(b, count, name, ino);
    AppendKeeps(b, count, name, ino);
    FindAfterAppend(b, r, count, name);
    forall other | other != name && (|other| <= MAX_FILENAME_LEN || Terminated(b, count))
      ensures FindEntry(r, count + 1, other) == FindEntry(b, count, other)
    {
      AppendFindsOther(b, count, name, ino, other);
    }
  }

  /** What `osfs_iterate` hands to `dir_emit_dots` and `dir_emit`. Stray is
      the record just before the block, which position 1 reaches. */
  datatype Emit = Dot | DotDot | Entry(name: seq<byte>, ino: nat) | Stray

  /** Record i; a negative index is the record before the block. */
  function EntryAt(b: seq<byte>, i: int): Emit
    requires |b| == BLOCK_SIZE && i < MAX_DIR_ENTRIES
  {
    if i < 0 then Stray else Entry(EntryName(b, i), EntryIno(b, i))
  }

  /** Records -1, 0, ..., count - 1 of a directory: record i at index i + 1. */
  function Records(b: seq<byte>, count: nat): (recs: seq<Emit>)
    requires WfDir(b, count)
    ensures |recs| == count + 1 && recs[0] == Stray
    ensures forall i :: -1 <= i < count ==> recs[i + 1] == EntryAt(b, i)
  {
    [Stray] + seq(count, k requires 0 <= k < count => EntryAt(b, k))
  }

  /** Everything a call at position pos would emit to a consumer that never
      refuses: the dots at position 0, then records from index pos - 2. */
  function Stream(recs: seq<Emit>, pos: nat): seq<Emit>
    requires |recs| >= 1
  {
    if pos == 0 then [Dot, DotDot] + recs[1..]
    else if pos - 1 <= |recs| then recs[pos - 1..]
    else []
  }

  /** Return value, new `ctx->pos`, and records emitted. */
  datatype Listing = Listing(ret: int, pos: nat, out: seq<Emit>)

  /** A call at position pos with a consumer that accepts `room` records and
      refuses the next: a refused dot ends the call with 0, a refused entry
      with -EINVAL; each accepted record advances the position by one. */
  function Iterate(recs: seq<Emit>, pos: nat, room: nat): (l: Listing)
    requires |recs| >= 1
  {
    var all := Stream(recs, pos);
    var out := Accepted(all, room);
    Listing(if |out| == |all| || (pos == 0 && |out| < 2) then 0 else -EINVAL, pos + |out|, out)
  }

  /** The first `room` records of s, or all of them. */
  function Accepted(s: seq<Emit>, room: nat): (t: seq<Emit>)
    ensures |t| == (if room < |s| then room else |s|) && t == s[..|t|]
  {
    if room < |s| then s[..room] else s
  }

  /** Taking r1 records, then r2 of what is left, takes r1 + r2. */
  lemma AcceptedTwice(s: seq<Emit>, r1: nat, r2: nat)
    ensures Accepted(s, r1) + Accepted(s[|Accepted(s, r1)|..], r2) == Accepted(s, r1 + r2)
  {
    var n := |Accepted(s, r1)|;
    var t := Accepted(s, r1 + r2);
    assert t == s[..n] + s[n..][..|t| - n];
  }

  /** `osfs_iterate` on a directory block holding `count` entries. */
  function IterateSpec(b: seq<byte>, count: nat, pos: nat, room: nat): Listing
    requires WfDir(b, count)
  {
    Iterate(Records(b, count), pos, room)
  }

  lemma StopsShort(recs: seq<Emit>, pos: nat, room: nat, out: seq<Emit>)
    requires |recs| >= 1 && room < |Stream(recs, pos)| && out == Stream(recs, pos)[..room]
    ensures Iterate(recs, pos, room) == Listing(if pos == 0 && room < 2 then 0 else -EINVAL, pos + room, out)
  {
    assert Accepted(Stream(recs, pos), room) == out;
  }

  lemma RunsOut(recs: seq<Emit>, pos: nat, room: nat, out: seq<Emit>)
    requires |recs| >= 1 && out == Stream(recs, pos) && |out| <= room
    ensures Iterate(recs, pos, room) == Listing(0, pos + |out|, out)
  {
    assert Accepted(out, room) == out;
  }

  /** `dir_emit_dots` at position 0: "." then "..", each advancing the
      position; `done` when the consumer refused one. */
  method EmitDots(ghost recs: seq<Emit>, room: nat) returns (done: bool, p: nat, left: nat, out: seq<Emit>)
    requires |recs| >= 1
    ensures done ==> Iterate(recs, 0, room) == Listing(0, p, out)
    ensures !done ==> p == 2 && out == [Dot, DotDot] && out == Stream(recs, 0)[..2] && left + 2 == room
  {
    if room == 0 {
      StopsShort(recs, 0, room, []);
      return true, 0, 0, [];
    }
    if room == 1 {
      StopsShort(recs, 0, room, [Dot]);
      return true, 1, 0, [Dot];
    }
    return false, 2, room - 2, [Dot, DotDot];
  }

  /** `osfs_iterate` over the decoded records of the directory block: the
      dots at position 0, then one `dir_emit` per record from index pos - 2
      until the consumer refuses one. */
  method EmitRecords(recs: seq<Emit>, pos: nat, room: nat) returns (l: Listing)
    requires |recs| >= 1
    ensures l == Iterate(recs, pos, room)
  {
    ghost var all := Stream(recs, pos);
    var p: nat, left: nat, out: seq<Emit> := pos, room, [];
    if p == 0 {
      var done;
      done, p, left, out := EmitDots(recs, room);
      if done {
        return Listing(0, p, out);
      }
    }
    var i: int := p - 2;
    while i + 1 < |recs|
      invariant p == i + 2 && |out| == p - pos && left + |out| == room
      invariant pos == 0 ==> p >= 2
      invariant |all| == |out| + (if i + 1 >= |recs| then 0 else |recs| - (i + 1))
      invariant out == all[..|out|]
      decreases |recs| - i
    {
      if left == 0 {
        StopsShort(recs, pos, room, out);
        return Listing(-EINVAL, p, out);
      }
      var e := recs[i + 1];
      assert all[..|out| + 1] == all[..|out|] + [e];
      out, p, left := out + [e], p + 1, left - 1;
      i := i + 1;
    }
    assert |out| == |all| && all[..|all|] == all;
    RunsOut(recs, pos, room, out);
    return Listing(0, p, out);
  }

  /** After n records, the stream goes on as the stream at position pos + n
      does, except after "." alone. */
  lemma StreamDrop(recs: seq<Emit>, pos: nat, n: nat)
    requires |recs| >= 1 && n <= |Stream(recs, pos)| && !(pos == 0 && n == 1)
    ensures Stream(recs, pos + n) == Stream(recs, pos)[n..]
  {
  }

  /** A listing resumed at the returned position continues where the last
      one stopped, so two calls emit what one call with both allowances
      would: unless the first call stopped between "." and "..". */
  lemma Resume(recs: seq<Emit>, pos: nat, room1: nat, room2: nat)
    requires |recs| >= 1 && !(pos == 0 && room1 == 1)
    ensures var l1 := Iterate(recs, pos, room1);
      var l2 := Iterate(recs, l1.pos, room2);
      var l := Iterate(recs, pos, room1 + room2);
      l1.out + l2.out == l.out && l2.pos == l.pos
  {
    var all := Stream(recs, pos);
    var n := |Accepted(all, room1)|;
    assert Stream(recs, pos + n) == all[n..] by {
      assert pos == 0 ==> |all| >= 2;
      StreamDrop(recs, pos, n);
    }
    AcceptedTwice(all, room1, room2);
  }

  /** Stopping between "." and ".." loses "..": the next call starts at
      position 1, index -1, and emits the record before the block instead. */
  lemma DotsSplitLosesDotDot(b: seq<byte>, count: nat, room2: nat)
    requires WfDir(b, count) && room2 > 0
    ensures var l1 := IterateSpec(b, count, 0, 1);
      var l2 := IterateSpec(b, count, l1.pos, room2);
      l1 == Listing(0, 1, [Dot]) && l2.out[0] == Stray && DotDot !in l1.out + l2.out
  {
    var recs := Records(b, count);
    var l1 := IterateSpec(b, count, 0, 1);
    assert l1.out == [Dot];
    var l2 := IterateSpec(b, count, 1, room2);
    assert l2.out[0] == recs[0];
    assert forall k :: 0 <= k < |recs| ==> recs[k] != DotDot by {
      forall k | 0 <= k < |recs|
        ensures recs[k] != DotDot
      {
        assert recs[(k - 1) + 1] == EntryAt(b, k - 1);
      }
    }
  }

  /** A consumer with room for everything sees ".", "..", then every
      in-use entry in order, and the position ends past the last one. */
  lemma FullListing(b: seq<byte>, count: nat, room: nat)
    requires WfDir(b, count) && room >= count + 2
    ensures var l := IterateSpec(b, count, 0, room);
      && l.ret == 0 && l.pos == count + 2 && |l.out| == count + 2
      && l.out[0] == Dot && l.out[1] == DotDot
      && forall i :: 0 <= i < count ==> l.out[i + 2] == Entry(EntryName(b, i), EntryIno(b, i))
  {
    var recs := Records(b, count);
    var all := Stream(recs, 0);
    assert all[..|all|] == all;
    forall i | 0 <= i < count
      ensures all[i + 2] == Entry(EntryName(b, i), EntryIno(b, i))
    {
      assert all[i + 2] == recs[i + 1];
    }
  }
}
