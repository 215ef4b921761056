/** A file system as it lies on the disk: files as lists of zones, the inode table as a list of records, directories as
    lists of entries, and what reading, looking up and opening make of them. */
module FsLayout {
  import opened Words
  import opened DiskSpec
  import opened FsSpec

  // ----- blocks and pointer blocks

  /** Block b of the file system, byte by byte: it starts 1 MiB into the disk. */
  lemma BlockByte(d: Sectors, b: nat, k: nat)
    requires HasBlock(d, b) && k < 1024
    ensures 2048 + 2 * b + k / 512 < |d| && Block(d, b)[k] == d[2048 + 2 * b + k / 512][k % 512]
  {
    FlatByte(d, 2048 + 2 * b, 2, k);
  }

  predicate Zones16(zs: seq<nat>) {
    forall i :: 0 <= i < |zs| ==> zs[i] < 65536
  }

  /** The block in a zone holds these 512 pointers. */
  predicate Holds(d: Sectors, zone: nat, zs: seq<nat>) {
    HasBlock(d, zone) && |zs| == 512 && Zones16(zs) && Block(d, zone) == ZoneBytes(zs, 512)
  }

  lemma PointerReads(d: Sectors, zone: nat, zs: seq<nat>, i: nat)
    requires Holds(d, zone, zs) && i < 512
    ensures Pointer(d, zone, i) == Some(zs[i])
  {
    ZoneAt(zs, 512, i);
  }

  // ----- files

  /** 512 zones of a file from number `from` on, zeros behind its end. */
  function Part(zones: seq<nat>, from: nat): (r: seq<nat>)
    ensures |r| == 512
  {
    seq(512, i requires 0 <= i < 512 => if from + i < |zones| then zones[from + i] else 0)
  }

  /** The file consists of the zones: the first seven stand in the inode, the next 512 in one pointer block, the others
      in pointer blocks that the second-level block `seconds` lists. */
  predicate LaidOut(d: Sectors, ino: Inode, zones: seq<nat>, seconds: seq<nat>) {
    && InodeOk(ino) && Zones16(zones) && |zones| <= 7 + 512 + 512 * 512
    && (forall z :: 0 <= z < |zones| && z < 7 ==> ino.zones[z] == zones[z])
    && (|zones| > 7 ==> Holds(d, ino.zones[7], Part(zones, 7)))
    && (|zones| > 519 ==> Holds(d, ino.zones[8], seconds))
    && (forall i :: 0 <= i < 512 && 519 + 512 * i < |zones| ==>
          |seconds| == 512 && Holds(d, seconds[i], Part(zones, 519 + 512 * i)))
  }

  /** Block z of the file lies in its z-th zone, and zone 0 is a hole. */
  lemma MapsZone(d: Sectors, ino: Inode, zones: seq<nat>, seconds: seq<nat>, z: nat)
    requires LaidOut(d, ino, zones, seconds) && z < |zones|
    ensures MapBlock(d, ino, z) == if zones[z] == 0 then None else Some(zones[z])
  {
    if z >= 519 {
      var q := z - 519;
      var i, j := q / 512, q % 512;
      assert q == 512 * i + j && i < 512 && 519 + 512 * i <= z;
      PointerReads(d, ino.zones[8], seconds, i);
      PointerReads(d, seconds[i], Part(zones, 519 + 512 * i), j);
    } else if z >= 7 {
      PointerReads(d, ino.zones[7], Part(zones, 7), z - 7);
    }
  }

  /** The blocks of the first n zones, one after the other. */
  function Concat(d: Sectors, zones: seq<nat>, n: nat): (r: seq<Byte>)
    requires n <= |zones| && AllThere(d, zones)
    ensures |r| == 1024 * n
  {
    if n == 0 then [] else Concat(d, zones, n - 1) + Block(d, zones[n - 1])
  }

  predicate AllThere(d: Sectors, zones: seq<nat>) {
    forall z :: 0 <= z < |zones| ==> zones[z] != 0 && HasBlock(d, zones[z])
  }

  lemma {:induction false} ConcatByte(d: Sectors, zones: seq<nat>, n: nat, k: nat)
    requires n <= |zones| && AllThere(d, zones) && k < 1024 * n
    ensures k / 1024 < n && Concat(d, zones, n)[k] == Block(d, zones[k / 1024])[k % 1024]
    decreases n
  {
    if k < 1024 * (n - 1) {
      ConcatByte(d, zones, n - 1, k);
    } else {
      assert k / 1024 == n - 1 && k % 1024 == k - 1024 * (n - 1);
    }
  }

  /** A file without holes can be read throughout, and its content is its blocks one after the other, cut to its
      size. */
  lemma ContentIsBlocks(d: Sectors, ino: Inode, zones: seq<nat>, seconds: seq<nat>)
    requires LaidOut(d, ino, zones, seconds) && AllThere(d, zones) && ino.size <= 1024 * |zones|
    ensures Readable(d, ino, 0, ino.size) && Content(d, ino) == Concat(d, zones, |zones|)[..ino.size]
  {
    forall k | 0 <= k < ino.size
      ensures BlockReadable(d, ino, k / BLOCK) && FileByte(d, ino, k) == Concat(d, zones, |zones|)[k]
    {
      ConcatByte(d, zones, |zones|, k);
      MapsZone(d, ino, zones, seconds, k / 1024);
    }
  }

  // ----- the inode table

  /** An inode with the fields that the kernel does not use. */
  datatype Record = Record(ino: Inode, uid: nat, time: nat, gid: Byte, links: Byte)

  predicate RecordOk(r: Record) {
    InodeOk(r.ino) && r.ino.mode < 65536
  }

  function RecordsBytes(rs: seq<Record>): (b: seq<Byte>)
    requires forall i :: 0 <= i < |rs| ==> RecordOk(rs[i])
    ensures |b| == 32 * |rs|
  {
    if rs == [] then []
    else
      var r := rs[|rs| - 1];
      assert RecordOk(r);
      HeadOfRecord(r.ino, r.uid, r.time, r.gid, r.links);
      RecordsBytes(rs[..|rs| - 1]) + InodeRecord(r.ino, r.uid, r.time, r.gid, r.links)
  }

  lemma {:induction false} RecordReads(rs: seq<Record>, behind: seq<Byte>, i: nat)
    requires (forall k :: 0 <= k < |rs| ==> RecordOk(rs[k])) && i < |rs|
    ensures ParseInode(RecordsBytes(rs) + behind, 32 * i) == rs[i].ino
    decreases |rs|
  {
    var n := |rs| - 1;
    var r := rs[n];
    assert RecordOk(r);
    var last := InodeRecord(r.ino, r.uid, r.time, r.gid, r.links);
    var front := RecordsBytes(rs[..n]);
    assert RecordsBytes(rs) + behind == front + last + behind;
    if i < n {
      RecordReads(rs[..n], last + behind, i);
      assert front + (last + behind) == front + last + behind;
    } else {
      ParseRecord(r.ino, r.uid, r.time, r.gid, r.links, front, behind);
    }
  }

  /** The table follows the boot block, the super block and the bitmaps, 32 records to a block; inode 1 is the first. */
  predicate TableLaid(d: Sectors, maps: nat, rs: seq<Record>) {
    && |rs| % 32 == 0 && |rs| < 65536 && (forall i :: 0 <= i < |rs| ==> RecordOk(rs[i]))
    && forall j: nat :: j < |rs| / 32 ==> TableBlock(d, maps, rs, j)
  }

  predicate TableBlock(d: Sectors, maps: nat, rs: seq<Record>, j: nat)
    requires (forall i :: 0 <= i < |rs| ==> RecordOk(rs[i])) && 32 * j + 32 <= |rs|
  {
    HasBlock(d, 2 + maps + j) && Block(d, 2 + maps + j) == RecordsBytes(rs[32 * j..32 * j + 32])
  }

  lemma TableRecord(d: Sectors, maps: nat, rs: seq<Record>, j: nat, i: nat)
    requires TableLaid(d, maps, rs) && j < |rs| / 32 && i < 32
    ensures HasBlock(d, 2 + maps + j) && ParseInode(Block(d, 2 + maps + j), 32 * i) == rs[32 * j + i].ino
  {
    assert TableBlock(d, maps, rs, j);
    var part := rs[32 * j..32 * j + 32];
    RecordReads(part, [], i);
    assert RecordsBytes(part) + [] == RecordsBytes(part) && part[i] == rs[32 * j + i];
  }

  lemma InodePlace(maps: nat, num: nat)
    requires 1 <= num < 65536
    ensures InodeBlock(maps, num) == 2 + maps + (num - 1) / 32 && InodeOffset(num) == 32 * ((num - 1) % 32)
  {
    assert (num + 65535) % 65536 == num - 1;
  }

  /** Reading inode num finds the num-th record of the table. */
  lemma InodeIsRecord(d: Sectors, maps: nat, rs: seq<Record>, num: nat)
    requires TableLaid(d, maps, rs) && 1 <= num <= |rs|
    ensures InodeAt(d, maps, num) == Some(rs[num - 1].ino)
  {
    InodePlace(maps, num);
    TableRecord(d, maps, rs, (num - 1) / 32, (num - 1) % 32);
  }

  /** The file type is in the upper four bits of the mode; 4 is a directory. */
  lemma DirectoryType(ino: Inode, kind: nat, permissions: nat)
    requires ino.mode == 4096 * kind + permissions && permissions < 4096
    ensures IsDirectory(ino) <==> kind == 4
  {
  }

  // ----- directories

  datatype Entry = Entry(num: nat, name: seq<Byte>)

  predicate EntryOk(e: Entry) {
    e.num < 65536 && |e.name| <= 30 && forall i :: 0 <= i < |e.name| ==> e.name[i] != 0
  }

  /** The inode number and the name, filled up with zeros to 30 bytes. */
  function EntryBytes(e: Entry): (b: seq<Byte>)
    requires EntryOk(e)
    ensures |b| == 32
  {
    Bytes16(e.num) + e.name + seq<Byte>(30 - |e.name|, _ => 0)
  }

  function DirectoryBytes(es: seq<Entry>): (b: seq<Byte>)
    requires forall i :: 0 <= i < |es| ==> EntryOk(es[i])
    ensures |b| == 32 * |es|
  {
    if es == [] then [] else EntryBytes(es[0]) + DirectoryBytes(es[1..])
  }

  /** The number in the first entry in use with the name, or 0. */
  function NumberOf(es: seq<Entry>, name: seq<Byte>): nat {
    if es == [] then 0 else if es[0].num != 0 && es[0].name == name then es[0].num else NumberOf(es[1..], name)
  }

  lemma {:induction false} NameReads(name: seq<Byte>, n: nat)
    requires forall i :: 0 <= i < |name| ==> name[i] != 0
    ensures CStr(name + seq<Byte>(n, _ => 0)) == name
    decreases name
  {
    var b := name + seq<Byte>(n, _ => 0);
    if name != [] {
      NameReads(name[1..], n);
      assert b[1..] == name[1..] + seq<Byte>(n, _ => 0);
    }
  }

  /** Looking a name up in a directory gives the first entry in use that has it; a last partial entry is ignored. */
  lemma {:induction false} LookupIsEntry(es: seq<Entry>, rest: seq<Byte>, name: seq<Byte>)
    requires (forall i :: 0 <= i < |es| ==> EntryOk(es[i])) && |rest| < 32
    ensures Find(DirectoryBytes(es) + rest, 0, name) == NumberOf(es, name)
    decreases es
  {
    var b := DirectoryBytes(es) + rest;
    if es != [] {
      var tail := DirectoryBytes(es[1..]) + rest;
      assert EntryOk(es[0]) && b == EntryBytes(es[0]) + tail;
      FindEntry(es[0], tail, name);
      LookupIsEntry(es[1..], rest, name);
    }
  }

  lemma FindEntry(e: Entry, tail: seq<Byte>, name: seq<Byte>)
    requires EntryOk(e)
    ensures Find(EntryBytes(e) + tail, 0, name)
         == if e.num != 0 && e.name == name then e.num else Find(tail, 0, name)
  {
    EntryReads(e, tail);
    FindStep(EntryBytes(e) + tail, 0, name);
    FindShift(EntryBytes(e), tail, 1, 0, name);
  }

  lemma EntryReads(e: Entry, tail: seq<Byte>)
    requires EntryOk(e)
    ensures var b := EntryBytes(e) + tail; U16(b, 0) == e.num && CStr(b[2..32]) == e.name
  {
    var b, pad := EntryBytes(e) + tail, seq<Byte>(30 - |e.name|, _ => 0);
    Field16([], e.num, e.name + pad + tail);
    assert b == [] + Bytes16(e.num) + (e.name + pad + tail);
    NameReads(e.name, 30 - |e.name|);
    assert b[2..32] == e.name + pad;
  }

  // ----- the tree

  /** A file system: the inodes, numbered from 1, and the entries of those that are directories. */
  datatype Tree = Tree(inodes: seq<Record>, entries: map<nat, seq<Entry>>)

  predicate DirectoryAt(d: Sectors, tree: Tree, n: nat)
    requires n in tree.entries && 1 <= n <= |tree.inodes|
  {
    var es, ino := tree.entries[n], tree.inodes[n - 1].ino;
    && (forall i :: 0 <= i < |es| ==> EntryOk(es[i]) && es[i].num <= |tree.inodes|)
    && InodeOk(ino) && ino.mode / 4096 == 4 && Readable(d, ino, 0, ino.size) && Content(d, ino) == DirectoryBytes(es)
  }

  /** Whatever has no entries is no directory. */
  predicate FileAt(tree: Tree, n: nat) {
    1 <= n <= |tree.inodes| && n !in tree.entries ==> tree.inodes[n - 1].ino.mode / 4096 != 4
  }

  /** The disk holds the tree; inode 1 is there. */
  ghost predicate TreeLaid(d: Sectors, maps: nat, tree: Tree) {
    && TableLaid(d, maps, tree.inodes) && tree.inodes != []
    && (forall n :: n in tree.entries ==> 1 <= n <= |tree.inodes| && DirectoryAt(d, tree, n))
    && (forall n :: FileAt(tree, n))
  }

  /** The inode number of a name in directory n; 0 when there is none, or n is no directory. */
  function Next(tree: Tree, n: nat, name: seq<Byte>): nat {
    if n in tree.entries then NumberOf(tree.entries[n], name) else 0
  }

  /** Where a list of names leads in the tree. */
  function Follow(tree: Tree, from: nat, names: seq<seq<Byte>>): Option<nat>
    decreases names
  {
    if names == [] then Some(from)
    else if Next(tree, from, names[0]) == 0 then None
    else Follow(tree, Next(tree, from, names[0]), names[1..])
  }

  lemma {:induction false} NumberInTree(es: seq<Entry>, name: seq<Byte>, limit: nat)
    requires forall i :: 0 <= i < |es| ==> es[i].num <= limit
    ensures NumberOf(es, name) <= limit
    decreases es
  {
    if es != [] {
      NumberInTree(es[1..], name, limit);
    }
  }

  lemma ChildIsEntry(d: Sectors, maps: nat, tree: Tree, n: nat, name: seq<Byte>)
    requires TreeLaid(d, maps, tree) && 1 <= n <= |tree.inodes|
    ensures InodeOk(tree.inodes[n - 1].ino) && Child(d, tree.inodes[n - 1].ino, name) == Next(tree, n, name)
    ensures Next(tree, n, name) <= |tree.inodes|
  {
    assert RecordOk(tree.inodes[n - 1]);
    assert FileAt(tree, n);
    if n in tree.entries {
      var ino, es := tree.inodes[n - 1].ino, tree.entries[n];
      assert DirectoryAt(d, tree, n);
      ChunksAreFlat(d, ino, 0, name);
      LookupIsEntry(es, [], name);
      assert DirectoryBytes(es) + [] == DirectoryBytes(es);
      NumberInTree(es, name, |tree.inodes|);
    }
  }

  /** One name of a walk from inode n. */
  ghost predicate StepAt(d: Sectors, maps: nat, tree: Tree, n: nat, name: seq<Byte>) {
    1 <= n <= |tree.inodes| ==>
      && InodeOk(tree.inodes[n - 1].ino)
      && var k := Next(tree, n, name);
      && k <= |tree.inodes| && Child(d, tree.inodes[n - 1].ino, name) == k
      && (k != 0 ==> InodeAt(d, maps, k) == Some(tree.inodes[k - 1].ino))
  }

  ghost predicate Steps(d: Sectors, maps: nat, tree: Tree) {
    && (forall n: nat, name :: StepAt(d, maps, tree, n, name))
    && forall i :: 0 <= i < |tree.inodes| ==> InodeOk(tree.inodes[i].ino)
  }

  lemma TreeSteps(d: Sectors, maps: nat, tree: Tree)
    requires TreeLaid(d, maps, tree)
    ensures Steps(d, maps, tree)
  {
    forall i | 0 <= i < |tree.inodes| ensures InodeOk(tree.inodes[i].ino) { assert RecordOk(tree.inodes[i]); }
    forall n: nat, name ensures StepAt(d, maps, tree, n, name) {
      if 1 <= n <= |tree.inodes| {
        ChildIsEntry(d, maps, tree, n, name);
        var k := Next(tree, n, name);
        if k != 0 { InodeIsRecord(d, maps, tree.inodes, k); }
      }
    }
  }

  lemma WalkStep(d: Sectors, maps: nat, tree: Tree, n: nat, names: seq<seq<Byte>>)
    requires names != [] && StepAt(d, maps, tree, n, names[0]) && 1 <= n <= |tree.inodes|
    requires forall i :: 0 <= i < |tree.inodes| ==> InodeOk(tree.inodes[i].ino)
    ensures var k, w := Next(tree, n, names[0]), Walk(d, maps, tree.inodes[n - 1].ino, names);
            && k <= |tree.inodes|
            && if k == 0 then w == None else w == Walk(d, maps, tree.inodes[k - 1].ino, names[1..])
  {
  }

  /** The walk from inode n ends where the names lead. */
  ghost predicate Reaches(d: Sectors, maps: nat, tree: Tree, n: nat, names: seq<seq<Byte>>)
    requires 1 <= n <= |tree.inodes| && InodeOk(tree.inodes[n - 1].ino)
  {
    var w := Walk(d, maps, tree.inodes[n - 1].ino, names);
    match Follow(tree, n, names)
    case None => w == None
    case Some(k) => 1 <= k <= |tree.inodes| && w == Some(tree.inodes[k - 1].ino)
  }

  lemma {:induction false} WalkFollows(d: Sectors, maps: nat, tree: Tree, n: nat, names: seq<seq<Byte>>)
    requires Steps(d, maps, tree) && 1 <= n <= |tree.inodes|
    ensures Reaches(d, maps, tree, n, names)
    decreases |names|
  {
    if names != [] {
      assert StepAt(d, maps, tree, n, names[0]);
      WalkStep(d, maps, tree, n, names);
      if Next(tree, n, names[0]) != 0 {
        WalkFollows(d, maps, tree, Next(tree, n, names[0]), names[1..]);
      }
    }
  }

  /** Opening a path finds the inode to which its names lead from the root, and fails when they lead nowhere. */
  lemma OpenFollows(d: Sectors, maps: nat, tree: Tree, names: seq<seq<Byte>>)
    requires TreeLaid(d, maps, tree)
    ensures match Follow(tree, 1, names)
            case None => Open(d, maps, names) == None
            case Some(k) => 1 <= k <= |tree.inodes| && Open(d, maps, names) == Some(tree.inodes[k - 1].ino)
  {
    InodeIsRecord(d, maps, tree.inodes, 1);
    TreeSteps(d, maps, tree);
    WalkFollows(d, maps, tree, 1, names);
  }
}
