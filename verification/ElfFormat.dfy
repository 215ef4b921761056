/** The layout of ELF files: reading the headers gives back what a file with that layout says. */
module ElfFormat {
  import opened Words
  import opened Elf

  /** The fields of the ELF header, in order. */
  datatype Ehdr = Ehdr(ident: seq<Byte>, kind: nat, machine: nat, version: nat, entry: nat, phoff: nat, shoff: nat,
                       flags: nat, ehsize: nat, phentsize: nat, phnum: nat, shentsize: nat, shnum: nat, shstrndx: nat)

  predicate EhdrOk(h: Ehdr) {
    |h.ident| == 16 && h.entry < WORD && h.phoff < WORD && h.phnum < 65536
  }

  function EhdrBytes(h: Ehdr): seq<Byte> {
    h.ident + Bytes16(h.kind) + Bytes16(h.machine) + Bytes32(h.version)
    + Bytes32(h.entry) + Bytes32(h.phoff) + Bytes32(h.shoff) + Bytes32(h.flags)
    + Bytes16(h.ehsize) + Bytes16(h.phentsize) + Bytes16(h.phnum)
    + Bytes16(h.shentsize) + Bytes16(h.shnum) + Bytes16(h.shstrndx)
  }

  /** The fields of a program header, in order. */
  datatype Segment = Segment(kind: nat, offset: nat, vaddr: nat, paddr: nat, filesz: nat, memsz: nat, flags: nat,
                             align: nat)

  predicate SegmentOk(s: Segment) {
    s.kind < WORD && s.offset < WORD && s.vaddr < WORD && s.filesz < WORD && s.memsz < WORD
  }

  /** 32-bit words in a row. */
  function WordsBytes(vs: seq<nat>): (r: seq<Byte>)
    ensures |r| == 4 * |vs|
  {
    if vs == [] then [] else WordsBytes(vs[..|vs| - 1]) + Bytes32(vs[|vs| - 1])
  }

  function Fields(s: Segment): seq<nat> {
    [s.kind, s.offset, s.vaddr, s.paddr, s.filesz, s.memsz, s.flags, s.align]
  }

  function SegmentBytes(s: Segment): (r: seq<Byte>)
    ensures |r| == 32
  {
    WordsBytes(Fields(s))
  }

  function TableBytes(ss: seq<Segment>): (r: seq<Byte>)
    ensures |r| == 32 * |ss|
  {
    if ss == [] then [] else TableBytes(ss[..|ss| - 1]) + SegmentBytes(ss[|ss| - 1])
  }

  /** What the loader uses of a program header. */
  function Used(s: Segment): Phdr {
    Phdr(s.kind, s.offset, s.vaddr, s.filesz, s.memsz)
  }

  // ----- one record

  lemma EhdrFields(h: Ehdr)
    requires EhdrOk(h)
    ensures var b := EhdrBytes(h);
            |b| == 52 && U32(b, 24) == h.entry && U32(b, 28) == h.phoff && U16(b, 44) == h.phnum
  {
    var b := EhdrBytes(h);
    var first := h.ident + Bytes16(h.kind) + Bytes16(h.machine) + Bytes32(h.version);
    var last := Bytes16(h.shentsize) + Bytes16(h.shnum) + Bytes16(h.shstrndx);
    var middle := Bytes32(h.shoff) + Bytes32(h.flags) + Bytes16(h.ehsize) + Bytes16(h.phentsize);
    Field32(first, h.entry, Bytes32(h.phoff) + middle + Bytes16(h.phnum) + last);
    assert b == first + Bytes32(h.entry) + (Bytes32(h.phoff) + middle + Bytes16(h.phnum) + last);
    Field32(first + Bytes32(h.entry), h.phoff, middle + Bytes16(h.phnum) + last);
    assert b == first + Bytes32(h.entry) + Bytes32(h.phoff) + (middle + Bytes16(h.phnum) + last);
    Field16(first + Bytes32(h.entry) + Bytes32(h.phoff) + middle, h.phnum, last);
    assert b == first + Bytes32(h.entry) + Bytes32(h.phoff) + middle + Bytes16(h.phnum) + last;
  }

  lemma {:induction false} WordAt(before: seq<Byte>, vs: seq<nat>, behind: seq<Byte>, i: nat)
    requires i < |vs| && vs[i] < WORD
    ensures U32(before + WordsBytes(vs) + behind, |before| + 4 * i) == vs[i]
    decreases |vs|
  {
    var n := |vs| - 1;
    var front, last := WordsBytes(vs[..n]), Bytes32(vs[n]);
    if i < n {
      WordAt(before, vs[..n], last + behind, i);
      assert before + front + (last + behind) == before + WordsBytes(vs) + behind;
    } else {
      Field32(before + front, vs[n], behind);
      assert before + front + last + behind == before + WordsBytes(vs) + behind;
    }
  }

  lemma SegmentFields(before: seq<Byte>, s: Segment, behind: seq<Byte>, i: nat)
    requires SegmentOk(s) && |before| == PHDR_SIZE * i
    ensures PhdrAt(before + SegmentBytes(s) + behind, i) == Used(s)
  {
    WordAt(before, Fields(s), behind, 0);
    WordAt(before, Fields(s), behind, 1);
    WordAt(before, Fields(s), behind, 2);
    WordAt(before, Fields(s), behind, 4);
    WordAt(before, Fields(s), behind, 5);
  }

  // ----- the table

  lemma {:induction false} TableRead(ss: seq<Segment>, behind: seq<Byte>)
    requires forall i :: 0 <= i < |ss| ==> SegmentOk(ss[i])
    ensures var b := TableBytes(ss) + behind;
            |PhdrsOf(b, |ss|)| == |ss| && forall i :: 0 <= i < |ss| ==> PhdrsOf(b, |ss|)[i] == Used(ss[i])
    decreases |ss|
  {
    if ss != [] {
      var n := |ss| - 1;
      var before, s := TableBytes(ss[..n]), ss[n];
      TableRead(ss[..n], SegmentBytes(s) + behind);
      assert before + (SegmentBytes(s) + behind) == TableBytes(ss) + behind;
      SegmentFields(before, s, behind, n);
      assert before + SegmentBytes(s) + behind == TableBytes(ss) + behind;
    }
  }

  // ----- files

  /** The content starts with the header, and the table lies where the header says. */
  predicate Image(c: seq<Byte>, h: Ehdr, ss: seq<Segment>) {
    && EhdrOk(h) && (forall i :: 0 <= i < |ss| ==> SegmentOk(ss[i])) && h.phnum == |ss|
    && 52 <= |c| && c[..52] == EhdrBytes(h)
    && h.phoff + 32 * |ss| <= |c| && c[h.phoff..h.phoff + 32 * |ss|] == TableBytes(ss)
  }

  /** The loader reads the entry point and the program headers, one by one, as they stand in the file; an image
      without program headers is refused. */
  lemma HeadersRead(c: seq<Byte>, h: Ehdr, ss: seq<Segment>)
    requires Image(c, h, ss)
    ensures var r := ReadHeaders(c);
            if ss == [] then r == None
            else r.Some? && r.value.entry == h.entry && |r.value.phdrs| == |ss|
                 && forall i :: 0 <= i < |ss| ==> r.value.phdrs[i] == Used(ss[i])
  {
    EhdrFields(h);
    TableRead(ss, []);
    assert TableBytes(ss) + [] == TableBytes(ss);
    assert c[0..0 + 52] == c[..52];
  }

  /** A file that is too short for the header or for its table is refused. */
  lemma HeadersCutOff(c: seq<Byte>, h: Ehdr)
    requires EhdrOk(h) && (52 <= |c| ==> c[..52] == EhdrBytes(h) && h.phoff + 32 * h.phnum > |c|)
    ensures ReadHeaders(c) == None
  {
    EhdrFields(h);
    if 52 <= |c| { assert c[0..0 + 52] == c[..52]; }
  }
}

/** Programs in that format: where they are entered, and what their addresses hold. */
module ElfPrograms {
  import opened Words
  import opened Vm
  import opened Elf
  import opened Loading
  import opened System
  import opened SystemProofs
  import opened SystemRuns
  import opened ElfFormat

  /** A successful execve enters the program at the entry point that its header names. */
  lemma EntersProgram(s: Sys, m: nat, env: ExecEnv, h: Ehdr, ss: seq<Segment>)
    requires CanExec(s, m, env) && HasMm(s, s.cur.value) && env.file.Some? && Image(env.file.value.content, h, ss)
    ensures Execve(s, m, env).1.Replaced? ==> Execve(s, m, env).1 == Replaced(h.entry) && ss != []
  {
    ExecveKeeps(s, m, env);
    HeadersRead(env.file.value.content, h, ss);
  }

  /** The bytes of a segment that the file holds. */
  predicate InContent(c: seq<Byte>, s: Segment) {
    s.kind == 1 ==> s.offset + s.filesz <= |c| < WORD
  }

  lemma ProgramComplete(file: File, h: Ehdr, ss: seq<Segment>)
    requires Image(file.content, h, ss) && ss != [] && forall i :: 0 <= i < |ss| ==> InContent(file.content, ss[i])
    ensures Complete(file)
  {
    HeadersRead(file.content, h, ss);
    forall i | 0 <= i < |ss| ensures InFile(ReadHeaders(file.content).value.phdrs[i], file) {
      assert InContent(file.content, ss[i]);
    }
  }

  /** What a program finds at an address of segment seg: the byte of the file at the segment's offset, and zeros behind
      the part that the file holds. */
  function ProgramByte(c: seq<Byte>, s: Segment, a: nat): Byte
    requires s.vaddr <= a && InContent(c, s) && s.kind == 1
  {
    if a - s.vaddr < s.filesz then c[s.offset + (a - s.vaddr)] else 0
  }

  lemma ProgramPrescribed(file: File, h: Ehdr, ss: seq<Segment>, seg: nat, a: nat)
    requires Image(file.content, h, ss) && seg < |ss| && ss[seg].kind == 1 && InContent(file.content, ss[seg])
    requires ss[seg].vaddr <= a < ss[seg].vaddr + ss[seg].memsz
    ensures Prescribed(file, seg, a) == Some(ProgramByte(file.content, ss[seg], a))
  {
    HeadersRead(file.content, h, ss);
  }

  /** A loaded program sees its file: after task t has loaded it, in every later state of every run until t itself
      stores, exits or execs, each address of each segment reads as that byte of the file, or as zero. */
  lemma ProgramSeesFile(ss: seq<Sys>, sts: seq<Step>, t: nat, file: File, i: nat, j: nat, h: Ehdr, segs: seq<Segment>,
                        seg: nat, a: nat)
    requires Run(ss, sts) && i < j <= |sts| && Loads(ss[i], sts[i], t, file) && Untouched(ss, sts, t, i + 1, j)
    requires Image(file.content, h, segs) && forall k :: 0 <= k < |segs| ==> InContent(file.content, segs[k])
    requires seg < |segs| && segs[seg].kind == 1 && a < WORD
    requires segs[seg].vaddr <= a < segs[seg].vaddr + segs[seg].memsz
    ensures SeesByte(ss[j], t, a, ProgramByte(file.content, segs[seg], a))
  {
    ProgramComplete(file, h, segs);
    ProgramPrescribed(file, h, segs, seg, a);
    DemandPagingIsEager(ss, sts, t, file, i, j, seg, a);
  }
}
