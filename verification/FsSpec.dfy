/** The Minix file system seen as flat files and directories. */
module FsSpec {
  import opened Words
  import opened DiskSpec

  const BASE_SECTOR: nat := 2048
  const BLOCK: nat := 1024
  const DIRECT: nat := 7
  const ZONE_ENTRIES: nat := 512
  const MAX_BLOCKS: nat := 262663       // 7 + 512 + 512 * 512
  const NAME: nat := 30
  const ROOT: nat := 1

  datatype Inode = Inode(mode: nat, size: nat, zones: seq<nat>)

  predicate InodeOk(i: Inode) {
    |i.zones| == 9 && i.size < WORD && forall z :: 0 <= z < 9 ==> i.zones[z] < 65536
  }

  // ----- blocks

  predicate HasBlock(d: Sectors, b: nat) {
    Formatted(d) && BASE_SECTOR + 2 * b + 2 <= |d|
  }

  function Block(d: Sectors, b: nat): (r: seq<Byte>)
    requires HasBlock(d, b)
    ensures |r| == BLOCK
  {
    Flat(d, BASE_SECTOR + 2 * b, 2)
  }

  // ----- zones

  /** Entry i of the pointer block in a zone. */
  function Pointer(d: Sectors, zone: nat, i: nat): (r: Option<nat>)
    requires i < ZONE_ENTRIES
    ensures r.Some? ==> r.value < 65536
  {
    if HasBlock(d, zone) then Some(U16(Block(d, zone), 2 * i)) else None
  }

  /** The zone of file block z: a direct pointer, a pointer block, or a pointer block of pointer blocks;
      None for holes, for blocks beyond the double indirect range, and where a pointer block is missing. */
  function MapBlock(d: Sectors, ino: Inode, z: nat): (r: Option<nat>)
    requires InodeOk(ino)
    ensures r.Some? ==> 0 < r.value < 65536
  {
    var zone :=
      if z < DIRECT then Some(ino.zones[z])
      else if z - DIRECT < ZONE_ENTRIES then Pointer(d, ino.zones[7], z - DIRECT)
      else if z < MAX_BLOCKS then
        var q := z - DIRECT - ZONE_ENTRIES;
        match Pointer(d, ino.zones[8], q / ZONE_ENTRIES)
        case None => None
        case Some(second) => Pointer(d, second, q % ZONE_ENTRIES)
      else None;
    if zone == Some(0) then None else zone
  }

  /** The pointer slot that decides where a file block lies. */
  datatype PointerSlot = InInode(i: nat) | InIndirect(i: nat) | InDouble(i: nat, j: nat)

  function SlotOf(z: nat): PointerSlot {
    if z < DIRECT then InInode(z)
    else if z < DIRECT + ZONE_ENTRIES then InIndirect(z - DIRECT)
    else InDouble((z - DIRECT - ZONE_ENTRIES) / ZONE_ENTRIES, (z - DIRECT - ZONE_ENTRIES) % ZONE_ENTRIES)
  }

  function Deref(d: Sectors, ino: Inode, s: PointerSlot): Option<nat>
    requires InodeOk(ino)
  {
    match s
    case InInode(i) => if i < DIRECT then Some(ino.zones[i]) else None
    case InIndirect(i) => if i < ZONE_ENTRIES then Pointer(d, ino.zones[7], i) else None
    case InDouble(i, j) =>
      if i < ZONE_ENTRIES && j < ZONE_ENTRIES && Pointer(d, ino.zones[8], i).Some? then
        Pointer(d, Pointer(d, ino.zones[8], i).value, j)
      else None
  }

  /** Block indices below the limit and pointer slots correspond one to one, and the slot alone decides the
      zone. */
  lemma SlotsDistinct(y: nat, z: nat)
    requires y < MAX_BLOCKS && z < MAX_BLOCKS && y != z
    ensures SlotOf(y) != SlotOf(z)
  {
    if y >= DIRECT + ZONE_ENTRIES && z >= DIRECT + ZONE_ENTRIES {
      var a, b := y - DIRECT - ZONE_ENTRIES, z - DIRECT - ZONE_ENTRIES;
      assert a == a / 512 * 512 + a % 512 && b == b / 512 * 512 + b % 512;
    }
  }

  lemma MapBlockBySlot(d: Sectors, ino: Inode, z: nat)
    requires InodeOk(ino) && z < MAX_BLOCKS
    ensures MapBlock(d, ino, z) == if Deref(d, ino, SlotOf(z)) == Some(0) then None else Deref(d, ino, SlotOf(z))
  {
    if z >= DIRECT + ZONE_ENTRIES {
      assert (z - DIRECT - ZONE_ENTRIES) / 512 < 512;
    }
  }

  // ----- files

  /** Block z of the file can be read. */
  predicate BlockReadable(d: Sectors, ino: Inode, z: nat)
    requires InodeOk(ino)
  {
    MapBlock(d, ino, z).Some? && HasBlock(d, MapBlock(d, ino, z).value)
  }

  function FileByte(d: Sectors, ino: Inode, k: nat): Byte
    requires InodeOk(ino)
  {
    if BlockReadable(d, ino, k / BLOCK) then Block(d, MapBlock(d, ino, k / BLOCK).value)[k % BLOCK] else 0
  }

  /** Every byte of [pos, pos + n) lies in a readable block. */
  predicate Readable(d: Sectors, ino: Inode, pos: nat, n: nat)
    requires InodeOk(ino)
  {
    forall k :: pos <= k < pos + n ==> BlockReadable(d, ino, k / BLOCK)
  }

  /** The flat file's bytes [pos, pos + n). */
  function Slice(d: Sectors, ino: Inode, pos: nat, n: nat): (r: seq<Byte>)
    requires InodeOk(ino)
    ensures |r| == n
  {
    seq<Byte>(n, k requires 0 <= k < n => FileByte(d, ino, pos + k))
  }

  function Min(a: nat, b: nat): nat { if a < b then a else b }

  datatype ReadResult = ReadResult(data: seq<Byte>, pos: nat)

  /** What vfs_read takes for the rest of the file, in 32 bits: behind the end the difference wraps. */
  function Remaining(size: nat, pos: nat): nat
    requires pos < WORD
  {
    (size + WORD - pos) % WORD
  }

  lemma RemainingInside(size: nat, pos: nat)
    requires pos <= size < WORD
    ensures Remaining(size, pos) == size - pos
  {
  }

  lemma RemainingBehind(size: nat, pos: nat)
    requires size < pos < WORD
    ensures Remaining(size, pos) == WORD - (pos - size)
  {
  }

  /** vfs_read on a flat file: the bytes up to the end of the file and the new position; nothing when some
      block cannot be read. */
  function ReadFile(d: Sectors, ino: Inode, pos: nat, count: nat): ReadResult
    requires InodeOk(ino) && pos < WORD
  {
    var n := Min(Remaining(ino.size, pos), count);
    if Readable(d, ino, pos, n) then ReadResult(Slice(d, ino, pos, n), pos + n) else ReadResult([], pos)
  }

  /** A read that meets a block that cannot be read delivers nothing and leaves the position. */
  lemma UnreadableReadsNothing(d: Sectors, ino: Inode, pos: nat, count: nat, k: nat)
    requires InodeOk(ino) && pos < WORD && pos <= k < pos + Min(Remaining(ino.size, pos), count)
    requires !BlockReadable(d, ino, k / BLOCK)
    ensures ReadFile(d, ino, pos, count) == ReadResult([], pos)
  {
  }

  /** Two reads in a row are one read. */
  lemma ReadsCompose(d: Sectors, ino: Inode, pos: nat, a: nat, b: nat)
    requires InodeOk(ino) && pos <= ino.size && Readable(d, ino, pos, Min(ino.size - pos, a + b))
    ensures var r1 := ReadFile(d, ino, pos, a);
            r1.pos <= ino.size
            && var r2 := ReadFile(d, ino, r1.pos, b);
            ReadFile(d, ino, pos, a + b) == ReadResult(r1.data + r2.data, r2.pos)
  {
    var n := Min(ino.size - pos, a);
    RemainingInside(ino.size, pos);
    RemainingInside(ino.size, pos + n);
    assert Readable(d, ino, pos, n);
    assert Readable(d, ino, pos + n, Min(ino.size - (pos + n), b));
  }

  /** Bytes that can be read lie below the limit of the zone pointers, so positions do not wrap. */
  lemma ReadableBounded(d: Sectors, ino: Inode, pos: nat, n: nat)
    requires InodeOk(ino) && Readable(d, ino, pos, n) && n > 0
    ensures pos + n <= 1024 * MAX_BLOCKS < WORD
  {
    assert BlockReadable(d, ino, (pos + n - 1) / BLOCK);
  }

  /** The whole file as one sequence, which is what the memory model takes a file to be. */
  function Content(d: Sectors, ino: Inode): seq<Byte>
    requires InodeOk(ino)
  {
    Slice(d, ino, 0, ino.size)
  }

  /** A read is a slice of the content. */
  lemma ReadIsContent(d: Sectors, ino: Inode, pos: nat, count: nat)
    requires InodeOk(ino) && pos <= ino.size && Readable(d, ino, 0, ino.size)
    ensures var n := Min(ino.size - pos, count);
            ReadFile(d, ino, pos, count) == ReadResult(Content(d, ino)[pos..pos + n], pos + n)
  {
    var n := Min(ino.size - pos, count);
    RemainingInside(ino.size, pos);
    ReadableSub(d, ino, pos, n);
    assert Slice(d, ino, pos, n) == Content(d, ino)[pos..pos + n];
  }

  // ----- inodes

  /** The 32-byte record of an inode. */
  function ParseInode(b: seq<Byte>, at: nat): (r: Inode)
    requires at + 32 <= |b|
    ensures InodeOk(r)
  {
    Inode(U16(b, at), U32(b, at + 4), seq(9, i requires 0 <= i < 9 => U16(b, at + 14 + 2 * i)))
  }

  /** The record as the file system stores it: mode, owner, size, time, group and links, nine zones. */
  function InodeRecord(i: Inode, uid: nat, time: nat, gid: Byte, links: Byte): seq<Byte>
    requires InodeOk(i)
  {
    Bytes16(i.mode) + Bytes16(uid) + Bytes16(i.size) + Bytes16(i.size / 65536) + Bytes16(time) + Bytes16(time / 65536)
    + [gid, links] + ZoneBytes(i.zones, 9)
  }

  /** The first n zones. */
  function ZoneBytes(zones: seq<nat>, n: nat): (r: seq<Byte>)
    requires n <= |zones|
    ensures |r| == 2 * n
  {
    if n == 0 then [] else ZoneBytes(zones, n - 1) + Bytes16(zones[n - 1])
  }

  lemma {:induction false} ZoneAt(zones: seq<nat>, n: nat, z: nat)
    requires n <= |zones| && z < n && forall i :: 0 <= i < |zones| ==> zones[i] < 65536
    ensures U16(ZoneBytes(zones, n), 2 * z) == zones[z]
    decreases n
  {
    if z < n - 1 {
      ZoneAt(zones, n - 1, z);
    } else {
      assert zones[z] / 256 < 256;
    }
  }

  /** Reading a record gives back the inode that it stores, wherever it lies in its block. */
  lemma ParseRecord(i: Inode, uid: nat, time: nat, gid: Byte, links: Byte, before: seq<Byte>, behind: seq<Byte>)
    requires InodeOk(i) && i.mode < 65536
    ensures |InodeRecord(i, uid, time, gid, links)| == 32
    ensures ParseInode(before + InodeRecord(i, uid, time, gid, links) + behind, |before|) == i
  {
    var rec := InodeRecord(i, uid, time, gid, links);
    var b, at := before + rec + behind, |before|;
    U16Inside(before, rec, behind, 0);
    U16Inside(before, rec, behind, 4);
    U16Inside(before, rec, behind, 6);
    HeadOfRecord(i, uid, time, gid, links);
    forall z: nat | z < 9 ensures U16(b, at + 14 + 2 * z) == i.zones[z] {
      U16Inside(before, rec, behind, 14 + 2 * z);
      ZoneOfRecord(i, uid, time, gid, links, z);
    }
    assert ParseInode(b, at).zones == i.zones;
  }

  lemma U16Inside(before: seq<Byte>, x: seq<Byte>, behind: seq<Byte>, k: nat)
    requires k + 2 <= |x|
    ensures U16(before + x + behind, |before| + k) == U16(x, k)
  {
  }

  lemma HeadOfRecord(i: Inode, uid: nat, time: nat, gid: Byte, links: Byte)
    requires InodeOk(i) && i.mode < 65536
    ensures var rec := InodeRecord(i, uid, time, gid, links);
            |rec| == 32 && U16(rec, 0) == i.mode && U32(rec, 4) == i.size
  {
    assert i.mode / 256 < 256 && i.size / 65536 / 256 < 256;
  }

  lemma ZoneOfRecord(i: Inode, uid: nat, time: nat, gid: Byte, links: Byte, z: nat)
    requires InodeOk(i) && z < 9
    ensures var rec := InodeRecord(i, uid, time, gid, links); |rec| == 32 && U16(rec, 14 + 2 * z) == i.zones[z]
  {
    var rec := InodeRecord(i, uid, time, gid, links);
    ZoneAt(i.zones, 9, z);
    assert rec == rec[..14] + ZoneBytes(i.zones, 9) + [];
    U16Inside(rec[..14], ZoneBytes(i.zones, 9), [], 2 * z);
  }

  /** Block and byte offset of an inode, after the boot block, the super block and the two bitmaps. */
  function InodeBlock(maps: nat, num: nat): nat { 2 + maps + (num + 65535) % 65536 / 32 }
  function InodeOffset(num: nat): nat { (num + 65535) % 65536 % 32 * 32 }

  function InodeAt(d: Sectors, maps: nat, num: nat): (r: Option<Inode>)
    ensures r.Some? ==> InodeOk(r.value)
  {
    if HasBlock(d, InodeBlock(maps, num)) then
      Some(ParseInode(Block(d, InodeBlock(maps, num)), InodeOffset(num)))
    else None
  }

  predicate IsDirectory(i: Inode) {
    i.mode / 4096 == 4
  }

  // ----- directories

  /** The C string at the start of a buffer. */
  function CStr(b: seq<Byte>): (r: seq<Byte>)
    ensures |r| <= |b| && forall i :: 0 <= i < |r| ==> r[i] == b[i] && r[i] != 0
    ensures |r| < |b| ==> b[|r|] == 0
  {
    if b == [] || b[0] == 0 then [] else [b[0]] + CStr(b[1..])
  }

  /** Inode number of the first live entry from entry k on that has the name, or 0. A directory is a
      sequence of 32-byte entries; a last partial one is ignored. */
  function Find(b: seq<Byte>, k: nat, name: seq<Byte>): nat
    decreases |b| - 32 * k
  {
    if 32 * k + 32 > |b| then 0
    else
      var num := U16(b, 32 * k);
      if num != 0 && CStr(b[32 * k + 2..32 * k + 32]) == name then num else Find(b, k + 1, name)
  }

  /** The lookup of the kernel: one 1024-byte chunk of the directory at a time. */
  function FindChunks(d: Sectors, dir: Inode, pos: nat, name: seq<Byte>): nat
    requires InodeOk(dir) && pos <= dir.size
    decreases dir.size - pos
  {
    if pos == dir.size then 0
    else
      var n := Min(dir.size - pos, BLOCK);
      if !Readable(d, dir, pos, n) then 0
      else
        var found := Find(Slice(d, dir, pos, n), 0, name);
        if found != 0 then found else FindChunks(d, dir, pos + n, name)
  }

  /** Inode number of a name in a directory; 0 when it is not a directory. */
  function Child(d: Sectors, dir: Inode, name: seq<Byte>): nat
    requires InodeOk(dir)
  {
    if IsDirectory(dir) then FindChunks(d, dir, 0, name) else 0
  }

  lemma {:induction false} FindShift(a: seq<Byte>, b: seq<Byte>, m: nat, k: nat, name: seq<Byte>)
    requires |a| == 32 * m
    ensures Find(a + b, m + k, name) == Find(b, k, name)
    decreases |b| - 32 * k
  {
    var c := a + b;
    if 32 * k + 32 <= |b| {
      assert c[32 * (m + k)..][..32] == b[32 * k..][..32];
      assert U16(c, 32 * (m + k)) == U16(b, 32 * k);
      assert c[32 * (m + k) + 2..32 * (m + k) + 32] == b[32 * k + 2..32 * k + 32];
      FindShift(a, b, m, k + 1, name);
    }
  }

  /** Searching a whole number of entries, then the rest. */
  lemma {:induction false} FindSplit(a: seq<Byte>, b: seq<Byte>, m: nat, k: nat, name: seq<Byte>)
    requires |a| == 32 * m && k <= m
    ensures Find(a + b, k, name) == if Find(a, k, name) != 0 then Find(a, k, name) else Find(b, 0, name)
    decreases m - k
  {
    var c := a + b;
    if k == m {
      FindShift(a, b, m, 0, name);
    } else {
      assert U16(c, 32 * k) == U16(a, 32 * k);
      assert c[32 * k + 2..32 * k + 32] == a[32 * k + 2..32 * k + 32];
      FindSplit(a, b, m, k + 1, name);
    }
  }

  /** Where a chunk of a directory of that size can start. */
  predicate ChunkStart(pos: nat, size: nat) {
    pos == size || (pos < size && pos % 1024 == 0)
  }

  lemma NextChunk(pos: nat, size: nat)
    requires ChunkStart(pos, size) && pos < size
    ensures ChunkStart(pos + Min(size - pos, BLOCK), size)
  {
  }

  /** Either a holds 32 whole entries, or nothing follows it. */
  lemma FindInParts(a: seq<Byte>, b: seq<Byte>, name: seq<Byte>)
    requires |a| == 1024 || b == []
    ensures Find(a + b, 0, name) == if Find(a, 0, name) != 0 then Find(a, 0, name) else Find(b, 0, name)
  {
    if |a| == 1024 {
      FindSplit(a, b, 32, 0, name);
    } else {
      assert a + b == a;
    }
  }

  lemma FlatStep(d: Sectors, dir: Inode, pos: nat, name: seq<Byte>)
    requires InodeOk(dir) && pos < dir.size
    ensures var n := Min(dir.size - pos, BLOCK);
            var found := Find(Slice(d, dir, pos, n), 0, name);
            Find(Slice(d, dir, pos, dir.size - pos), 0, name)
              == if found != 0 then found else Find(Slice(d, dir, pos + n, dir.size - (pos + n)), 0, name)
  {
    var n := Min(dir.size - pos, BLOCK);
    SliceSplit(d, dir, pos, n, dir.size - pos - n);
    FindInParts(Slice(d, dir, pos, n), Slice(d, dir, pos + n, dir.size - (pos + n)), name);
  }

  /** The chunked lookup is the lookup in the flat directory. */
  lemma {:induction false} ChunksAreFlat(d: Sectors, dir: Inode, pos: nat, name: seq<Byte>)
    requires InodeOk(dir) && ChunkStart(pos, dir.size) && Readable(d, dir, 0, dir.size)
    ensures FindChunks(d, dir, pos, name) == Find(Slice(d, dir, pos, dir.size - pos), 0, name)
    decreases dir.size - pos
  {
    if pos < dir.size {
      FirstChunk(d, dir, pos, name);
      FlatStep(d, dir, pos, name);
      NextChunk(pos, dir.size);
      ChunksAreFlat(d, dir, pos + Min(dir.size - pos, BLOCK), name);
    }
  }

  /** The first chunk, and the others. */
  lemma FirstChunk(d: Sectors, dir: Inode, pos: nat, name: seq<Byte>)
    requires InodeOk(dir) && pos < dir.size && Readable(d, dir, 0, dir.size)
    ensures var n := Min(dir.size - pos, BLOCK);
            var found := Find(Slice(d, dir, pos, n), 0, name);
            FindChunks(d, dir, pos, name) == if found != 0 then found else FindChunks(d, dir, pos + n, name)
  {
    ReadableSub(d, dir, pos, Min(dir.size - pos, BLOCK));
  }

  /** How many bytes of a directory from pos on lie in chunks before the first one that cannot be read. */
  function ReadablePart(d: Sectors, dir: Inode, pos: nat): (n: nat)
    requires InodeOk(dir) && pos <= dir.size
    ensures pos + n <= dir.size
    decreases dir.size - pos
  {
    if pos == dir.size then 0
    else
      var n := Min(dir.size - pos, BLOCK);
      if Readable(d, dir, pos, n) then n + ReadablePart(d, dir, pos + n) else 0
  }

  /** The lookup in any directory is the flat lookup in the part before the first unreadable chunk. */
  lemma {:induction false} LookupOfPart(d: Sectors, dir: Inode, pos: nat, name: seq<Byte>)
    requires InodeOk(dir) && ChunkStart(pos, dir.size)
    ensures FindChunks(d, dir, pos, name) == Find(Slice(d, dir, pos, ReadablePart(d, dir, pos)), 0, name)
    decreases dir.size - pos
  {
    if pos < dir.size {
      var n := Min(dir.size - pos, BLOCK);
      if Readable(d, dir, pos, n) {
        var rest := ReadablePart(d, dir, pos + n);
        NextChunk(pos, dir.size);
        LookupOfPart(d, dir, pos + n, name);
        SliceSplit(d, dir, pos, n, rest);
        FindInParts(Slice(d, dir, pos, n), Slice(d, dir, pos + n, rest), name);
      }
    }
  }

  lemma ReadableSub(d: Sectors, ino: Inode, pos: nat, n: nat)
    requires InodeOk(ino) && Readable(d, ino, 0, ino.size) && pos + n <= ino.size
    ensures Readable(d, ino, pos, n)
  {
  }

  lemma SliceSplit(d: Sectors, ino: Inode, pos: nat, a: nat, b: nat)
    requires InodeOk(ino)
    ensures Slice(d, ino, pos, a + b) == Slice(d, ino, pos, a) + Slice(d, ino, pos + a, b)
  {
  }

  // ----- paths

  const SLASH: Byte := 47

  /** Length of the run of bytes before the next slash. */
  function RunLength(p: seq<Byte>): (n: nat)
    ensures n <= |p| && (forall i :: 0 <= i < n ==> p[i] != SLASH) && (n < |p| ==> p[n] == SLASH)
  {
    if p == [] || p[0] == SLASH then 0 else 1 + RunLength(p[1..])
  }

  /** The non-empty segments between slashes. */
  function Segments(p: seq<Byte>): seq<seq<Byte>>
    decreases |p|
  {
    if p == [] then []
    else if p[0] == SLASH then Segments(p[1..])
    else [p[..RunLength(p)]] + Segments(p[RunLength(p)..])
  }

  predicate IsName(n: seq<Byte>) {
    n != [] && forall i :: 0 <= i < |n| ==> n[i] != SLASH
  }

  function JoinPath(names: seq<seq<Byte>>): seq<Byte> {
    if names == [] then [] else [SLASH] + names[0] + JoinPath(names[1..])
  }

  lemma JoinStarts(names: seq<seq<Byte>>)
    ensures JoinPath(names) == [] || JoinPath(names)[0] == SLASH
  {
  }

  /** A slash, a name, and a rest that is empty or starts with a slash. */
  lemma SegmentsOfName(name: seq<Byte>, rest: seq<Byte>)
    requires IsName(name) && (rest == [] || rest[0] == SLASH)
    ensures Segments([SLASH] + name + rest) == [name] + Segments(rest)
  {
    var p := name + rest;
    assert ([SLASH] + name + rest)[1..] == p;
    RunOfName(name, rest);
    assert p[..|name|] == name && p[|name|..] == rest;
    assert p[0] == name[0];
  }

  /** Splitting is the inverse of joining with slashes. */
  lemma {:induction false} SegmentsOfJoin(names: seq<seq<Byte>>)
    requires forall k :: 0 <= k < |names| ==> IsName(names[k])
    ensures Segments(JoinPath(names)) == names
    decreases names
  {
    if names != [] {
      SegmentsOfJoin(names[1..]);
      JoinStarts(names[1..]);
      SegmentsOfName(names[0], JoinPath(names[1..]));
    }
  }

  lemma {:induction false} RunOfName(name: seq<Byte>, rest: seq<Byte>)
    requires (forall i :: 0 <= i < |name| ==> name[i] != SLASH) && (rest == [] || rest[0] == SLASH)
    ensures RunLength(name + rest) == |name|
    decreases name
  {
    if name != [] {
      assert (name + rest)[1..] == name[1..] + rest;
      RunOfName(name[1..], rest);
    } else {
      assert name + rest == rest;
    }
  }

  /** Every segment is a name. */
  lemma {:induction false} SegmentsAreNames(p: seq<Byte>)
    ensures forall n :: n in Segments(p) ==> IsName(n)
    decreases |p|
  {
    if p != [] {
      SegmentsAreNames(if p[0] == SLASH then p[1..] else p[RunLength(p)..]);
    }
  }

  /** Doubling a slash anywhere changes nothing. */
  lemma {:induction false} SlashRunsCollapse(a: seq<Byte>, b: seq<Byte>)
    ensures Segments(a + [SLASH, SLASH] + b) == Segments(a + [SLASH] + b)
    decreases |a|
  {
    var one, two := a + [SLASH] + b, a + [SLASH, SLASH] + b;
    if a == [] {
      assert two[1..] == one;
    } else if a[0] == SLASH {
      assert one[1..] == a[1..] + [SLASH] + b && two[1..] == a[1..] + [SLASH, SLASH] + b;
      SlashRunsCollapse(a[1..], b);
    } else {
      var n := RunLength(a);
      RunOfName(a[..n], a[n..] + [SLASH] + b);
      RunOfName(a[..n], a[n..] + [SLASH, SLASH] + b);
      assert a[..n] + (a[n..] + [SLASH] + b) == one && a[..n] + (a[n..] + [SLASH, SLASH] + b) == two;
      assert one[n..] == a[n..] + [SLASH] + b && two[n..] == a[n..] + [SLASH, SLASH] + b;
      assert one[..n] == two[..n];
      SlashRunsCollapse(a[n..], b);
    }
  }

  /** The inode at the end of a path: the lookup folded over the segments, from the given inode. */
  function Walk(d: Sectors, maps: nat, from: Inode, names: seq<seq<Byte>>): (r: Option<Inode>)
    requires InodeOk(from)
    ensures r.Some? ==> InodeOk(r.value)
    decreases names
  {
    if names == [] then Some(from)
    else
      var child := Child(d, from, names[0]);
      if child == 0 then None
      else
        match InodeAt(d, maps, child)
        case None => None
        case Some(next) => Walk(d, maps, next, names[1..])
  }

  function Open(d: Sectors, maps: nat, names: seq<seq<Byte>>): Option<Inode> {
    match InodeAt(d, maps, ROOT)
    case None => None
    case Some(root) => Walk(d, maps, root, names)
  }

  // ----- what a lookup means

  /** Entry k is live and has the name. */
  predicate Matches(b: seq<Byte>, k: nat, name: seq<Byte>) {
    32 * k + 32 <= |b| && U16(b, 32 * k) != 0 && CStr(b[32 * k + 2..32 * k + 32]) == name
  }

  /** Entry k is the first match from entry `from` on. */
  ghost predicate FirstMatch(b: seq<Byte>, from: nat, k: nat, name: seq<Byte>) {
    from <= k && Matches(b, k, name) && forall j: nat :: from <= j < k ==> !Matches(b, j, name)
  }

  ghost predicate NoMatch(b: seq<Byte>, from: nat, name: seq<Byte>) {
    forall j: nat :: from <= j ==> !Matches(b, j, name)
  }

  lemma FirstMatchEarlier(b: seq<Byte>, from: nat, k: nat, name: seq<Byte>)
    requires FirstMatch(b, from + 1, k, name) && !Matches(b, from, name)
    ensures FirstMatch(b, from, k, name)
  {
  }

  lemma FindStep(b: seq<Byte>, from: nat, name: seq<Byte>)
    ensures Find(b, from, name)
         == if Matches(b, from, name) then U16(b, 32 * from)
            else if 32 * from + 32 <= |b| then Find(b, from + 1, name) else 0
  {
  }

  /** The lookup returns the number in the first live entry with the name, and 0 only when there is none. */
  lemma {:induction false} FindIsFirst(b: seq<Byte>, from: nat, name: seq<Byte>)
    ensures Find(b, from, name) == 0 ==> NoMatch(b, from, name)
    ensures Find(b, from, name) != 0 ==>
              exists k: nat :: FirstMatch(b, from, k, name) && U16(b, 32 * k) == Find(b, from, name)
    decreases |b| - 32 * from
  {
    FindStep(b, from, name);
    if Matches(b, from, name) {
      assert FirstMatch(b, from, from, name);
    } else if 32 * from + 32 <= |b| {
      FindIsFirst(b, from + 1, name);
      if Find(b, from + 1, name) != 0 {
        var k: nat :| FirstMatch(b, from + 1, k, name) && U16(b, 32 * k) == Find(b, from + 1, name);
        FirstMatchEarlier(b, from, k, name);
      }
    }
  }

  /** The simple lookup: each name is searched in the whole flat directory. */
  function Lookup(d: Sectors, maps: nat, from: Inode, names: seq<seq<Byte>>): Option<Inode>
    requires InodeOk(from)
    decreases names
  {
    if names == [] then Some(from)
    else if !IsDirectory(from) then None
    else
      var child := Find(Slice(d, from, 0, from.size), 0, names[0]);
      if child == 0 || InodeAt(d, maps, child) == None then None
      else Lookup(d, maps, InodeAt(d, maps, child).value, names[1..])
  }

  /** Every directory the simple lookup passes through can be read in full. */
  predicate DirectoriesReadable(d: Sectors, maps: nat, from: Inode, names: seq<seq<Byte>>)
    requires InodeOk(from)
    decreases names
  {
    names != [] && IsDirectory(from) ==>
      && Readable(d, from, 0, from.size)
      && var child := Find(Slice(d, from, 0, from.size), 0, names[0]);
         child != 0 && InodeAt(d, maps, child).Some? ==>
           DirectoriesReadable(d, maps, InodeAt(d, maps, child).value, names[1..])
  }

  /** The kernel's chunked walk finds what the simple lookup finds. */
  lemma {:induction false} WalkIsLookup(d: Sectors, maps: nat, from: Inode, names: seq<seq<Byte>>)
    requires InodeOk(from) && DirectoriesReadable(d, maps, from, names)
    ensures Walk(d, maps, from, names) == Lookup(d, maps, from, names)
    decreases names
  {
    if names != [] && IsDirectory(from) {
      ChunksAreFlat(d, from, 0, names[0]);
      var child := Child(d, from, names[0]);
      if child != 0 && InodeAt(d, maps, child).Some? {
        WalkIsLookup(d, maps, InodeAt(d, maps, child).value, names[1..]);
      }
    }
  }
}
