/** The Minix reader as the kernel runs it, block by block on the disk driver. */
module FileSystem {
  import opened Words
  import opened DiskSpec
  import opened DiskDriver
  import opened FsSpec

  class OpenFile {
    var inode: Option<Inode>
    var pos: nat

    constructor ()
      ensures inode == None && pos == 0
    {
      inode, pos := None, 0;
    }
  }

  class Fs {
    const disk: Disk

    /** s_imap_blocks + s_zmap_blocks of the super block. */
    const maps: nat

    ghost predicate Valid()
      reads this, disk
    {
      disk.Valid() && maps <= 131070
    }

    constructor (disk: Disk, maps: nat)
      requires disk.Valid() && maps <= 131070
      ensures Valid() && this.disk == disk && this.maps == maps
    {
      this.disk, this.maps := disk, maps;
    }

    /** read_block. */
    method ReadBlock(b: nat, buffer: array<Byte>) returns (ok: bool)
      requires Valid() && b < 0x100_0000 && buffer.Length == BLOCK && buffer != disk.dma
      modifies disk`sectors, disk.dma, buffer
      ensures Valid() && disk.sectors == old(disk.sectors)
      ensures disk.healthy && HasBlock(disk.sectors, b) ==> ok
      ensures ok ==> HasBlock(disk.sectors, b) && buffer[..] == Block(disk.sectors, b)
    {
      ok := disk.Read(BASE_SECTOR + 2 * b, buffer, 2);
      assert buffer[..Bytes(2)] == buffer[..];
    }

    /** read_zone_indirect_pointer. */
    method ReadZonePointer(zone: nat, i: nat) returns (r: Option<nat>)
      requires Valid() && zone < 65536 && i < ZONE_ENTRIES
      modifies disk`sectors, disk.dma
      ensures Valid() && disk.sectors == old(disk.sectors)
      ensures disk.healthy || r.Some? ==> r == Pointer(disk.sectors, zone, i)
    {
      var buffer := new Byte[1024];
      var ok := ReadBlock(zone, buffer);
      if !ok {
        return None;
      }
      return Some(buffer[2 * i] as nat + 256 * buffer[2 * i + 1] as nat);
    }

    /** map_file_block. */
    method MapFileBlock(ino: Inode, z: nat) returns (r: Option<nat>)
      requires Valid() && InodeOk(ino)
      modifies disk`sectors, disk.dma
      ensures Valid() && disk.sectors == old(disk.sectors)
      ensures disk.healthy || r.Some? ==> r == MapBlock(disk.sectors, ino, z)
    {
      var zone: Option<nat>;
      if z < DIRECT {
        zone := Some(ino.zones[z]);
      } else if z - DIRECT < ZONE_ENTRIES {
        zone := ReadZonePointer(ino.zones[7], z - DIRECT);
      } else if z - DIRECT - ZONE_ENTRIES < 262144 {
        var q := z - DIRECT - ZONE_ENTRIES;
        var second := ReadZonePointer(ino.zones[8], q / 512);
        if second == None {
          return None;
        }
        zone := ReadZonePointer(second.value, q % 512);
      } else {
        return None;
      }
      if zone == Some(0) {
        return None;
      }
      return zone;
    }

    /** One round of vfs_read: reads block z of the file and copies n of its bytes, from offset, to the
        buffer at out. */
    method ReadPart(ino: Inode, z: nat, offset: nat, n: nat, buffer: array<Byte>, out: nat) returns (ok: bool)
      requires Valid() && InodeOk(ino) && offset + n <= BLOCK && out + n <= buffer.Length && buffer != disk.dma
      modifies disk`sectors, disk.dma, buffer
      ensures Valid() && disk.sectors == old(disk.sectors)
      ensures disk.healthy && BlockReadable(disk.sectors, ino, z) ==> ok
      ensures ok ==> BlockReadable(disk.sectors, ino, z)
      ensures ok ==> buffer[..out + n] == old(buffer[..out])
                       + Block(disk.sectors, MapBlock(disk.sectors, ino, z).value)[offset..offset + n]
    {
      var block := new Byte[1024];
      var at := MapFileBlock(ino, z);
      if at == None {
        return false;
      }
      ok := ReadBlock(at.value, block);
      if ok {
        ghost var before := buffer[..];
        Copy(buffer, out, block, offset, n);
        assert buffer[..] == before[..out] + block[offset..offset + n] + before[out + n..];
        assert block[offset..offset + n] == block[..][offset..offset + n];
      }
    }

    /** The round of vfs_read that follows `read` bytes, seen from the whole read. */
    method ReadRound(ino: Inode, pos: nat, read: nat, max: nat, buffer: array<Byte>) returns (chunk: nat)
      requires Valid() && InodeOk(ino) && pos < WORD && read < max <= buffer.Length && buffer != disk.dma
      requires Readable(disk.sectors, ino, pos, read) && buffer[..read] == Slice(disk.sectors, ino, pos, read)
      modifies disk`sectors, disk.dma, buffer
      ensures Valid() && disk.sectors == old(disk.sectors) && chunk <= max - read
      ensures chunk == 0 ==> !(disk.healthy && Readable(disk.sectors, ino, pos, max))
      ensures chunk > 0 ==> Readable(disk.sectors, ino, pos, read + chunk)
                            && buffer[..read + chunk] == Slice(disk.sectors, ino, pos, read + chunk)
    {
      NoWrap(disk.sectors, ino, pos, read);
      var current := (pos + read) % WORD;
      chunk := if BLOCK - current % 1024 > max - read then max - read else BLOCK - current % 1024;
      PartOfSlice(disk.sectors, ino, pos, read, chunk);
      var ok := ReadPart(ino, current / 1024, current % 1024, chunk, buffer, read);
      if !ok {
        if Readable(disk.sectors, ino, pos, max) {
          UnreadablePart(disk.sectors, ino, pos, read, max);
        }
        return 0;
      }
    }

    /** vfs_read. A block that cannot be read makes the whole call return 0 and leaves the position. */
    method VfsRead(file: OpenFile, buffer: array<Byte>, count: nat) returns (read: nat)
      requires Valid() && file.inode.Some? && InodeOk(file.inode.value) && file.pos < WORD
      requires count <= buffer.Length && buffer != disk.dma
      modifies disk`sectors, disk.dma, buffer, file`pos
      ensures Valid() && disk.sectors == old(disk.sectors)
      ensures var r := ReadFile(disk.sectors, file.inode.value, old(file.pos), count);
              || (read == |r.data| <= buffer.Length && buffer[..read] == r.data && file.pos == r.pos)
              || (read == 0 && file.pos == old(file.pos) && !disk.healthy)
    {
      var ino := file.inode.value;
      var remaining := (ino.size + WORD - file.pos) % WORD;
      var max := if remaining < count then remaining else count;
      read := 0;
      while read < max
        invariant Valid() && disk.sectors == old(disk.sectors) && read <= max && file.pos == old(file.pos)
        invariant Readable(disk.sectors, ino, file.pos, read)
        invariant buffer[..read] == Slice(disk.sectors, ino, file.pos, read)
      {
        var chunk := ReadRound(ino, file.pos, read, max, buffer);
        if chunk == 0 {
          return 0;
        }
        read := read + chunk;
      }
      NoWrap(disk.sectors, ino, file.pos, read);
      file.pos := (file.pos + read) % WORD;
    }

    /** read_inode. */
    method ReadInode(num: nat) returns (r: Option<Inode>)
      requires Valid()
      modifies disk`sectors, disk.dma
      ensures Valid() && disk.sectors == old(disk.sectors)
      ensures disk.healthy || r.Some? ==> r == InodeAt(disk.sectors, maps, num)
    {
      var buffer := new Byte[1024];
      var ok := ReadBlock(InodeBlock(maps, num), buffer);
      if !ok {
        return None;
      }
      return Some(ParseInode(buffer[..], InodeOffset(num)));
    }

    /** name_equal, on two 31-byte name buffers. */
    method NameEqual(a: seq<Byte>, b: seq<Byte>) returns (equal: bool)
      requires |a| == |b| == NAME + 1
      ensures equal <==> CStr(a) == CStr(b) && |CStr(a)| <= NAME
    {
      var i := 0;
      while i < NAME + 1
        invariant i <= NAME + 1
        invariant forall j :: 0 <= j < i ==> a[j] == b[j] != 0
      {
        if a[i] != b[i] {
          CStrDiffers(a, b, i);
          return false;
        }
        if a[i] == 0 {
          CStrEnds(a, i);
          CStrEnds(b, i);
          assert a[..i] == b[..i];
          return true;
        }
        i := i + 1;
      }
      return false;
    }

    /** One entry of a directory: its inode number if it is live and has the name, 0 otherwise. */
    method EntryNumber(block: array<Byte>, n: nat, k: nat, name: seq<Byte>) returns (child: nat)
      requires 32 * k + 32 <= n <= block.Length && |name| == NAME + 1 && |CStr(name)| <= NAME
      ensures child == if Matches(block[..n], k, CStr(name)) then U16(block[..n], 32 * k) else 0
    {
      var offset := 32 * k;
      child := block[offset] as nat + 256 * block[offset + 1] as nat;
      assert child == U16(block[..n], 32 * k);
      if child != 0 {
        var entryName := block[offset + 2..offset + 32] + [0];
        ghost var stored := block[..n][32 * k + 2..32 * k + 32];
        assert entryName == stored + [0];
        CStrOfEntry(stored);
        var equal := NameEqual(entryName, name);
        if !equal {
          child := 0;
        }
      }
    }

    /** The entry loop of get_child_inode_num over the first n bytes of a chunk. */
    method SearchChunk(block: array<Byte>, n: nat, name: seq<Byte>) returns (child: nat)
      requires n <= block.Length && |name| == NAME + 1 && |CStr(name)| <= NAME
      ensures child == Find(block[..n], 0, CStr(name))
    {
      var k := 0;
      while 32 * k + 32 <= n
        invariant 32 * k <= n
        invariant Find(block[..n], 0, CStr(name)) == Find(block[..n], k, CStr(name))
        decreases n - 32 * k
      {
        FindStep(block[..n], k, CStr(name));
        child := EntryNumber(block, n, k, name);
        if child != 0 {
          return;
        }
        k := k + 1;
      }
      FindStep(block[..n], k, CStr(name));
      child := 0;
    }

    /** get_child_inode_num. */
    method GetChild(dir: Inode, name: seq<Byte>) returns (child: nat)
      requires Valid() && InodeOk(dir) && |name| == NAME + 1 && |CStr(name)| <= NAME
      modifies disk`sectors, disk.dma
      ensures Valid() && disk.sectors == old(disk.sectors)
      ensures disk.healthy || child != 0 ==> child == Child(disk.sectors, dir, CStr(name))
    {
      child := 0;
      if dir.mode / 4096 != 4 {
        return;
      }
      var dirFile := new OpenFile();
      dirFile.inode := Some(dir);
      var block := new Byte[1024];
      ghost var d, sought := disk.sectors, CStr(name);
      ghost var goal := FindChunks(d, dir, 0, sought);
      while dirFile.pos < dir.size
        invariant Valid() && disk.sectors == d && child == 0
        invariant dirFile.inode == Some(dir) && dirFile.pos <= dir.size
        invariant goal == FindChunks(d, dir, dirFile.pos, sought)
        decreases dir.size - dirFile.pos
      {
        var remaining := dir.size - dirFile.pos;
        ChunkStep(d, dir, dirFile.pos, sought);
        var read := VfsRead(dirFile, block, Min(remaining, BLOCK));
        if read == 0 {
          return;
        }
        child := SearchChunk(block, read, name);
        if child != 0 {
          return;
        }
      }
    }

    /** The inner loop of split_path over slashes. */
    method SkipSlashes(path: seq<Byte>, start: nat, ghost text: seq<Byte>) returns (p: nat)
      requires Terminated(path, text) && start <= |text|
      ensures start <= p <= |text| && path[p] != SLASH && (p == start ==> path[start] != SLASH)
      ensures Segments(text[p..]) == Segments(text[start..])
    {
      p := start;
      while path[p] == SLASH
        invariant start <= p <= |text| && Segments(text[p..]) == Segments(text[start..])
        decreases |text| - p
      {
        SlashDropped(text, p);
        p := p + 1;
      }
    }

    /** The inner loop of split_path over the bytes of a name, which it copies into a component buffer. */
    method CopyName(path: seq<Byte>, p: nat, row: seq<Byte>, ghost text: seq<Byte>, ghost run: nat)
      returns (filled: seq<Byte>, i: nat)
      requires Terminated(path, text) && p < |text| && |row| == NAME + 1
      requires RunAt(text, p, run) && run <= NAME
      ensures i == run && HoldsName(filled, text[p..p + run])
    {
      filled, i := row, 0;
      while path[p + i] != 0 && path[p + i] != SLASH
        invariant i <= run && |filled| == NAME + 1
        invariant forall j :: 0 <= j < i ==> filled[j] == text[p + j]
        decreases run - i
      {
        filled := filled[i := path[p + i]];
        i := i + 1;
      }
      filled := filled[i := 0];
      CStrEnds(filled, i);
      assert filled[..i] == text[p..p + i];
    }

    /** split_path: fills the component buffers and returns how many it used. */
    method SplitPath(path: seq<Byte>, components: array<seq<Byte>>) returns (n: nat)
      requires PathOk(path) && components.Length == MAX_NAMES && Rows(components[..])
      modifies components
      ensures n == |PathNames(path)| <= MAX_NAMES && Filled(components[..], PathNames(path), n)
    {
      n := 0;
      if path[0] != SLASH {
        return;
      }
      ghost var text := CStr(path);
      n := SplitAbsolute(path, components, text);
    }

    /** split_path on a path that starts with a slash. */
    method SplitAbsolute(path: seq<Byte>, components: array<seq<Byte>>, ghost text: seq<Byte>) returns (n: nat)
      requires Terminated(path, text) && NamesFit(Segments(text)) && components.Length == MAX_NAMES
      requires Rows(components[..])
      modifies components
      ensures n == |Segments(text)| && Filled(components[..], Segments(text), n)
    {
      ghost var names := Segments(text);
      n := 0;
      var p := 0;
      assert text[p..] == text && names[n..] == names;
      while path[p] != 0
        invariant p <= |text| && n <= |names| && names[n..] == Segments(text[p..])
        invariant Rows(components[..]) && Filled(components[..], names, n)
        decreases |text| - p
      {
        n, p := SplitOne(path, components, n, p, text, names);
      }
      NothingLeft(text, p);
    }

    /** One round of split_path: the slashes before a name, and the name if there is one. */
    method SplitOne(path: seq<Byte>, components: array<seq<Byte>>, n: nat, start: nat, ghost text: seq<Byte>,
          ghost names: seq<seq<Byte>>)
      returns (m: nat, p: nat)
      requires Terminated(path, text) && NamesFit(names) && components.Length == MAX_NAMES
      requires start < |text| && n <= |names| && names[n..] == Segments(text[start..])
      requires Rows(components[..]) && Filled(components[..], names, n)
      modifies components
      ensures start < p <= |text| && m <= |names| && names[m..] == Segments(text[p..])
      ensures Rows(components[..]) && Filled(components[..], names, m)
    {
      m := n;
      p := SkipSlashes(path, start, text);
      if path[p] != 0 {
        p := StoreName(path, components, n, p, text, names);
        m := n + 1;
      }
    }

    method StoreName(path: seq<Byte>, components: array<seq<Byte>>, n: nat, p: nat, ghost text: seq<Byte>,
          ghost names: seq<seq<Byte>>)
      returns (end: nat)
      requires Terminated(path, text) && NamesFit(names) && components.Length == MAX_NAMES
      requires p < |text| && text[p] != SLASH && n <= |names| && names[n..] == Segments(text[p..])
      requires Rows(components[..]) && Filled(components[..], names, n)
      modifies components
      ensures p < end <= |text| && n < |names| && names[n + 1..] == Segments(text[end..])
      ensures Rows(components[..]) && Filled(components[..], names, n + 1)
    {
      ghost var run := FirstSegment(text, p, names, n);
      var row, i := CopyName(path, p, components[n], text, run);
      FilledMore(components[..], names, n, row);
      components[n] := row;
      end := p + i;
    }

    /** vfs_open. */
    method VfsOpen(path: seq<Byte>, file: OpenFile) returns (ok: bool)
      requires Valid() && PathOk(path)
      modifies disk`sectors, disk.dma, file
      ensures Valid() && disk.sectors == old(disk.sectors)
      ensures ok ==> file.inode.Some? && file.inode == Open(disk.sectors, maps, PathNames(path))
      ensures disk.healthy ==> (ok <==> Open(disk.sectors, maps, PathNames(path)).Some?)
      ensures file.pos == 0 && (!ok ==> file.inode == None)
    {
      ghost var d, names := disk.sectors, PathNames(path);
      var components := new seq<Byte>[32](_ => seq<Byte>(31, _ => 0));
      var count := SplitPath(path, components);
      file.inode, file.pos := None, 0;
      var current := ReadInode(ROOT);
      if current == None {
        return false;
      }
      var i := 0;
      assert names[i..] == names;
      ghost var goal := Walk(d, maps, current.value, names);
      while i < count
        invariant Valid() && disk.sectors == d && i <= count && file.inode == None && file.pos == 0
        invariant Filled(components[..], names, count)
        invariant current.Some? && InodeOk(current.value)
        invariant goal == Walk(d, maps, current.value, names[i..])
      {
        WalkStep(d, maps, current.value, names, i);
        assert HoldsName(components[i], names[i]);
        var child := GetChild(current.value, components[i]);
        if child == 0 {
          return false;
        }
        current := ReadInode(child);
        if current == None {
          return false;
        }
        i := i + 1;
      }
      WalkEnds(d, maps, current.value, names[i..]);
      file.inode, file.pos := current, 0;
      return true;
    }

    /** vfs_close; freed is the inode that goes back to the heap, if there is one. */
    method VfsClose(file: OpenFile) returns (freed: Option<Inode>)
      modifies file
      ensures freed == old(file.inode) && file.inode == None && file.pos == 0
    {
      freed := None;
      if file.inode.Some? {
        freed, file.inode := file.inode, None;
      }
      file.pos := 0;
    }
  }

  const MAX_NAMES: nat := 32

  /** A NUL-terminated path whose names fit the component buffers. */
  predicate PathOk(path: seq<Byte>) {
    |CStr(path)| < |path| && NamesFit(Segments(CStr(path)))
  }

  predicate NamesFit(names: seq<seq<Byte>>) {
    |names| <= MAX_NAMES && forall k :: 0 <= k < |names| ==> |names[k]| <= NAME
  }

  /** The text of a NUL-terminated path. */
  predicate Terminated(path: seq<Byte>, text: seq<Byte>) {
    && |text| < |path| && path[|text|] == 0
    && forall i :: 0 <= i < |text| ==> path[i] == text[i] && text[i] != 0
  }

  /** A name of that length lies at p. */
  predicate RunAt(text: seq<Byte>, p: nat, run: nat) {
    && p + run <= |text|
    && (forall i :: p <= i < p + run ==> text[i] != SLASH)
    && (p + run < |text| ==> text[p + run] == SLASH)
  }

  /** The names of an absolute path; a relative one has none and so stands for the root. */
  function PathNames(path: seq<Byte>): seq<seq<Byte>> {
    if path != [] && path[0] == SLASH then Segments(CStr(path)) else []
  }

  predicate HoldsName(buffer: seq<Byte>, name: seq<Byte>) {
    |buffer| == NAME + 1 && |name| <= NAME && CStr(buffer) == name
  }

  predicate Rows(rows: seq<seq<Byte>>) {
    forall k :: 0 <= k < |rows| ==> |rows[k]| == NAME + 1
  }

  /** The first n rows hold the first n names. */
  predicate Filled(rows: seq<seq<Byte>>, names: seq<seq<Byte>>, n: nat) {
    n <= |rows| && n <= |names| && forall k :: 0 <= k < n ==> HoldsName(rows[k], names[k])
  }

  lemma FilledMore(rows: seq<seq<Byte>>, names: seq<seq<Byte>>, n: nat, row: seq<Byte>)
    requires Rows(rows) && Filled(rows, names, n) && n < |rows| && n < |names| && HoldsName(row, names[n])
    ensures Rows(rows[n := row]) && Filled(rows[n := row], names, n + 1)
  {
  }

  lemma {:induction false} CStrEnds(b: seq<Byte>, n: nat)
    requires n < |b| && b[n] == 0 && forall i :: 0 <= i < n ==> b[i] != 0
    ensures CStr(b) == b[..n]
    decreases n
  {
    if n > 0 {
      CStrEnds(b[1..], n - 1);
      assert b[..n] == [b[0]] + b[1..][..n - 1];
    }
  }

  /** An entry that fills its 30 bytes has no NUL of its own. */
  lemma {:induction false} CStrOfEntry(e: seq<Byte>)
    ensures CStr(e + [0]) == CStr(e)
    decreases |e|
  {
    if e != [] {
      assert (e + [0])[1..] == e[1..] + [0];
      CStrOfEntry(e[1..]);
    }
  }

  lemma CStrDiffers(a: seq<Byte>, b: seq<Byte>, i: nat)
    requires |a| == |b| && i < |a| && a[i] != b[i] && forall j :: 0 <= j < i ==> a[j] == b[j] != 0
    ensures CStr(a) != CStr(b)
  {
    if a[i] == 0 {
      CStrEnds(a, i);
    } else if b[i] == 0 {
      CStrEnds(b, i);
    }
  }

  /** One name of the walk. */
  lemma WalkStep(d: Sectors, maps: nat, from: Inode, names: seq<seq<Byte>>, i: nat)
    requires InodeOk(from) && i < |names|
    ensures var child := Child(d, from, names[i]);
            Walk(d, maps, from, names[i..])
              == if child == 0 || InodeAt(d, maps, child) == None then None
                 else Walk(d, maps, InodeAt(d, maps, child).value, names[i + 1..])
  {
    assert names[i..][0] == names[i] && names[i..][1..] == names[i + 1..];
  }

  lemma WalkEnds(d: Sectors, maps: nat, from: Inode, names: seq<seq<Byte>>)
    requires InodeOk(from) && names == []
    ensures Walk(d, maps, from, names) == Some(from)
  {
  }

  /** One chunk of the directory search. */
  lemma ChunkStep(d: Sectors, dir: Inode, pos: nat, name: seq<Byte>)
    requires InodeOk(dir) && pos < dir.size
    ensures var r := ReadFile(d, dir, pos, BLOCK);
            var found := Find(r.data, 0, name);
            FindChunks(d, dir, pos, name)
              == if r.data == [] then 0 else if found != 0 then found else FindChunks(d, dir, r.pos, name)
    ensures ReadFile(d, dir, pos, Min(dir.size - pos, BLOCK)) == ReadFile(d, dir, pos, BLOCK)
    ensures ReadFile(d, dir, pos, BLOCK).pos <= dir.size
    ensures var r := ReadFile(d, dir, pos, BLOCK); r.data != [] ==> r.pos > pos
  {
    RemainingInside(dir.size, pos);
  }

  lemma SlashDropped(text: seq<Byte>, p: nat)
    requires p < |text| && text[p] == SLASH
    ensures Segments(text[p..]) == Segments(text[p + 1..])
  {
    assert text[p..][1..] == text[p + 1..];
  }

  lemma NothingLeft(text: seq<Byte>, p: nat)
    requires p == |text|
    ensures Segments(text[p..]) == []
  {
  }

  /** The text from p on starts with segment n. */
  lemma FirstSegment(text: seq<Byte>, p: nat, names: seq<seq<Byte>>, n: nat) returns (run: nat)
    requires p < |text| && text[p] != SLASH && n <= |names| && names[n..] == Segments(text[p..])
    ensures run > 0 && RunAt(text, p, run) && n < |names| && names[n] == text[p..p + run]
    ensures names[n + 1..] == Segments(text[p + run..])
  {
    var rest := text[p..];
    run := RunLength(rest);
    assert forall i :: p <= i < |text| ==> text[i] == rest[i - p];
    assert rest[run..] == text[p + run..] && rest[..run] == text[p..p + run];
    assert names[n..] == [rest[..run]] + Segments(rest[run..]);
    assert names[n] == names[n..][0] && names[n + 1..] == names[n..][1..];
  }

  lemma NoWrap(d: Sectors, ino: Inode, pos: nat, read: nat)
    requires InodeOk(ino) && pos < WORD && Readable(d, ino, pos, read)
    ensures (pos + read) % WORD == pos + read
  {
    if read > 0 {
      ReadableBounded(d, ino, pos, read);
    }
  }

  /** Bytes of one block inside a slice. */
  lemma PartOfSlice(d: Sectors, ino: Inode, pos: nat, read: nat, chunk: nat)
    requires InodeOk(ino) && 0 < chunk <= BLOCK - (pos + read) % 1024
    ensures var z := (pos + read) / 1024; var offset := (pos + read) % 1024;
            && (BlockReadable(d, ino, z) && Readable(d, ino, pos, read) ==>
                  && Readable(d, ino, pos, read + chunk)
                  && Slice(d, ino, pos, read + chunk)
                     == Slice(d, ino, pos, read) + Block(d, MapBlock(d, ino, z).value)[offset..offset + chunk])
  {
    var z, offset := (pos + read) / 1024, (pos + read) % 1024;
    if BlockReadable(d, ino, z) && Readable(d, ino, pos, read) {
      forall k | pos + read <= k < pos + read + chunk
        ensures k / BLOCK == z && k % BLOCK == offset + (k - (pos + read))
      {
        InBlock(k, pos + read, z);
      }
      SliceSplit(d, ino, pos, read, chunk);
      BlockSlice(d, ino, pos + read, chunk);
    }
  }

  lemma BlockSlice(d: Sectors, ino: Inode, start: nat, n: nat)
    requires InodeOk(ino) && n <= BLOCK - start % 1024 && BlockReadable(d, ino, start / 1024)
    ensures Slice(d, ino, start, n) == Block(d, MapBlock(d, ino, start / 1024).value)[start % 1024..start % 1024 + n]
  {
    var z, offset := start / 1024, start % 1024;
    var block := Block(d, MapBlock(d, ino, z).value);
    forall i | 0 <= i < n
      ensures Slice(d, ino, start, n)[i] == block[offset..offset + n][i]
    {
      InBlock(start + i, start, z);
      assert FileByte(d, ino, start + i) == block[offset + i];
      assert Slice(d, ino, start, n)[i] == FileByte(d, ino, start + i);
    }
  }

  lemma InBlock(k: nat, start: nat, z: nat)
    requires z == start / 1024 && start <= k < start + (1024 - start % 1024)
    ensures k / BLOCK == z && k % BLOCK == start % 1024 + (k - start)
  {
  }

  lemma UnreadablePart(d: Sectors, ino: Inode, pos: nat, read: nat, max: nat)
    requires InodeOk(ino) && read < max && Readable(d, ino, pos, max)
    ensures BlockReadable(d, ino, (pos + read) / 1024)
  {
    assert BlockReadable(d, ino, (pos + read) / BLOCK);
  }
}
