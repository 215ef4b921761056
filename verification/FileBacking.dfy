/** Files on the disk as the memory system uses them: what the loader and the fault handler read through
    vfs_read is the flat content that the memory model attributes to a file. */
module FileBacking {
  import opened Words
  import opened Vm
  import opened Elf
  import opened DiskSpec
  import opened FsSpec

  /** The file is the readable inode of the disk. */
  ghost predicate Backs(d: Sectors, ino: Inode, file: File) {
    InodeOk(ino) && Readable(d, ino, 0, ino.size) && file.content == Content(d, ino)
  }

  /** read_elf inside the file: the bytes that vfs_read delivers, if it delivers all of them. */
  lemma ReadElfIsVfsRead(d: Sectors, ino: Inode, file: File, offset: nat, count: nat)
    requires Backs(d, ino, file) && offset <= ino.size
    ensures var r := ReadFile(d, ino, offset, count);
            ReadElf(file.content, offset, count) == if |r.data| == count then Some(r.data) else None
  {
    ReadIsContent(d, ino, offset, count);
  }

  /** Every byte of the page is the byte of the file that the zone pointers lead to, or zero. */
  lemma FaultByteIsFileByte(d: Sectors, ino: Inode, file: File, v: Area, p: nat, k: nat)
    requires Backs(d, ino, file) && v.Covers(p) && v.file == Some(file) && k < PAGE
    ensures var at := FileOffset(v, p) + k;
            FillByte(v, p, k) == if at < ino.size then FileByte(d, ino, at) else 0
  {
  }

  function FileOffset(v: Area, p: nat): nat
    requires v.Covers(p)
  {
    (v.offset + (p * PAGE - v.start)) % WORD
  }

  /** What the handler's vfs_read delivers for page p of area v. */
  function PageRead(d: Sectors, ino: Inode, v: Area, p: nat): seq<Byte>
    requires InodeOk(ino) && v.Covers(p)
  {
    var from := FileOffset(v, p);
    if from < ino.size then ReadFile(d, ino, from, Min(ino.size - from, PAGE)).data else []
  }

  lemma PageReadBytes(d: Sectors, ino: Inode, v: Area, p: nat, k: nat)
    requires InodeOk(ino) && Readable(d, ino, 0, ino.size) && v.Covers(p)
    ensures |PageRead(d, ino, v, p)| == if FileOffset(v, p) < ino.size then Min(ino.size - FileOffset(v, p), PAGE)
                                        else 0
    ensures k < |PageRead(d, ino, v, p)| ==> PageRead(d, ino, v, p)[k] == FileByte(d, ino, FileOffset(v, p) + k)
  {
    var from := FileOffset(v, p);
    if from < ino.size {
      ReadableSub(d, ino, from, Min(ino.size - from, PAGE));
    }
  }

  /** The page after a fault: what vfs_read delivers from the page's file offset, up to the page or the end
      of the file, and zeros behind it. */
  lemma FaultReadsFile(d: Sectors, ino: Inode, file: File, v: Area, p: nat)
    requires Backs(d, ino, file) && v.Covers(p) && v.file == Some(file)
    ensures |PageRead(d, ino, v, p)| <= PAGE
    ensures FillPage(v, p) == PageRead(d, ino, v, p) + Zeros(PAGE - |PageRead(d, ino, v, p)|)
  {
    var read := PageRead(d, ino, v, p);
    PageReadBytes(d, ino, v, p, 0);
    forall k | 0 <= k < PAGE
      ensures FillPage(v, p)[k] == (read + Zeros(PAGE - |read|))[k]
    {
      PageReadBytes(d, ino, v, p, k);
      FaultByteIsFileByte(d, ino, file, v, p, k);
    }
  }
}
