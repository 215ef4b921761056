/** Loading an ELF image into an address space: areas are entered eagerly, pages only where a tail of the
    last file page has to be zeroed. */
module Elf {
  import opened Words
  import opened Vm
  import opened MmapSpec

  const PT_LOAD: nat := 1
  const EHDR_SIZE: nat := 52
  const PHDR_SIZE: nat := 32

  // ----- headers

  datatype Phdr = Phdr(kind: nat, offset: nat, vaddr: nat, filesz: nat, memsz: nat)

  /** read_elf: exactly count bytes at the offset, or failure. */
  function ReadElf(c: seq<Byte>, offset: nat, count: nat): (r: Option<seq<Byte>>)
    ensures r.Some? ==> |r.value| == count
  {
    if offset + count <= |c| then Some(c[offset..offset + count]) else None
  }

  function PhdrAt(b: seq<Byte>, i: nat): Phdr
    requires PHDR_SIZE * (i + 1) <= |b|
  {
    var at := PHDR_SIZE * i;
    Phdr(U32(b, at), U32(b, at + 4), U32(b, at + 8), U32(b, at + 16), U32(b, at + 20))
  }

  function PhdrsOf(b: seq<Byte>, n: nat): (r: seq<Phdr>)
    requires PHDR_SIZE * n <= |b|
    ensures |r| == n
  {
    if n == 0 then [] else PhdrsOf(b, n - 1) + [PhdrAt(b, n - 1)]
  }

  datatype Headers = Headers(entry: nat, phdrs: seq<Phdr>)

  /** elf32_load_ehdr and elf32_load_phdr; an image without program headers is refused. */
  function ReadHeaders(c: seq<Byte>): Option<Headers> {
    match ReadElf(c, 0, EHDR_SIZE)
    case None => None
    case Some(h) =>
      var n := U16(h, 44);
      if n == 0 then None
      else
        match ReadElf(c, U32(h, 28), n * PHDR_SIZE)
        case None => None
        case Some(b) => Some(Headers(U32(h, 24), PhdrsOf(b, n)))
  }

  // ----- loading

  datatype Outcome = Loaded | Failed | Halted

  /** Whether the heap had room for each area, and how reading the zeroed page went. */
  datatype Luck = Luck(mmapOk: bool, brkOk: bool, read: Read)

  function DoMmap(s: Machine, m: nat, addr: nat, length: nat, file: Option<File>, offset: nat, ok: bool)
    : Option<Machine>
    requires m in s.mms
  {
    match Mmap(s.mms[m].areas, addr, length, file, offset)
    case None => None
    case Some(vs) => if ok then Some(SetAreas(s, m, vs)) else None
  }

  function Zeros(n: nat): (r: seq<Byte>)
    ensures |r| == n && forall i :: 0 <= i < n ==> r[i] == 0
  {
    seq(n, i => 0)
  }

  /** memset of the bytes from k to the end of frame f. */
  function ZeroTail(s: Machine, f: nat, k: nat): Machine
    requires Shape(s) && f < FRAMES && k <= PAGE
  {
    s.(ram := s.ram[f := s.ram[f][..k] + Zeros(PAGE - k)])
  }

  predicate FaultReady(s: Machine, m: nat, read: Read) {
    && Shape(s) && m in s.mms && s.mms[m].pgd < DIRS && (read.ReadFailed? ==> |read.left| == PAGE)
  }

  /** The write access of padzero to page p under the target directory: translate, faulting first when the
      page is absent, then zero the tail of the frame. */
  function ZeroPage(s: Machine, m: nat, p: nat, k: nat, read: Read): (Machine, Outcome)
    requires FaultReady(s, m, read) && p < PAGES && k <= PAGE
  {
    var (r, fault) := if Walk(s, s.cr3, p) == None then PageFault(s, m, p, read) else (s, Resolved);
    if fault == Panic then (r, Halted)
    else
      match Walk(r, r.cr3, p)
      case None => (r, Halted)
      case Some(f) => if Shape(r) && f < FRAMES then (ZeroTail(r, f, k).(tlb := r.tlb[p := f]), Loaded) else (r, Halted)
  }

  /** padzero: switches to the target directory when another one is loaded, and back. */
  function PadZero(s: Machine, m: nat, addr: nat, read: Read): (Machine, Outcome)
    requires FaultReady(s, m, read) && addr < WORD
  {
    var target := Pool(s.mms[m].pgd);
    var s1 := if s.cr3 != target then SetCr3(s, target) else s;
    var (s2, o) := if AlignUp(addr) == addr then (s1, Loaded) else ZeroPage(s1, m, addr / PAGE, addr % PAGE, read);
    (if s.cr3 != target then SetCr3(s2, s.cr3) else s2, o)
  }

  /** The anonymous area for what the file part's last page does not hold. */
  function BrkTail(s: Machine, m: nat, ph: Phdr, luck: Luck): (Machine, Outcome)
    requires m in s.mms
  {
    var zerosStart := AlignUp((ph.vaddr + ph.filesz) % WORD);
    var zerosEnd := (ph.vaddr + ph.memsz) % WORD;
    if zerosEnd > zerosStart then
      match DoMmap(s, m, zerosStart, zerosEnd - zerosStart, None, 0, luck.brkOk)
      case None => (s, Failed)
      case Some(r) => (r, Loaded)
    else (s, Loaded)
  }

  function PadTail(s: Machine, m: nat, ph: Phdr, luck: Luck): (Machine, Outcome)
    requires FaultReady(s, m, luck.read)
  {
    if ph.memsz > ph.filesz then PadZero(s, m, (ph.vaddr + ph.filesz) % WORD, luck.read) else (s, Loaded)
  }

  /** One round of the loop over the program headers. */
  function LoadSegment(s: Machine, m: nat, file: File, ph: Phdr, luck: Luck): (Machine, Outcome)
    requires FaultReady(s, m, luck.read)
  {
    if ph.kind != PT_LOAD then (s, Loaded)
    else if ph.memsz < ph.filesz then (s, Failed)
    else if ph.filesz == 0 then
      if ph.memsz == 0 then (s, Loaded)
      else
        match DoMmap(s, m, ph.vaddr, ph.memsz, None, 0, luck.brkOk)
        case None => (s, Failed)
        case Some(r) => (r, Loaded)
    else
      match DoMmap(s, m, ph.vaddr, ph.filesz, Some(file), ph.offset, luck.mmapOk)
      case None => (s, Failed)
      case Some(s1) =>
        var (s2, o) := PadTail(s1, m, ph, luck);
        if o == Loaded && m in s2.mms then BrkTail(s2, m, ph, luck) else (s2, o)
  }

  ghost predicate LucksOk(lucks: seq<Luck>) {
    forall i :: 0 <= i < |lucks| && lucks[i].read.ReadFailed? ==> |lucks[i].read.left| == PAGE
  }

  /** The loop of elf32_load_exec. */
  ghost function LoadSegments(s: Machine, m: nat, file: File, phs: seq<Phdr>, lucks: seq<Luck>): (Machine, Outcome)
    requires |phs| == |lucks| && LucksOk(lucks)
    requires Shape(s) && m in s.mms && s.mms[m].pgd < DIRS
    decreases |phs|
  {
    if phs == [] then (s, Loaded)
    else
      var (r, o) := LoadSegment(s, m, file, phs[0], lucks[0]);
      if o != Loaded || !Shape(r) || m !in r.mms || r.mms[m].pgd >= DIRS then (r, o)
      else LoadSegments(r, m, file, phs[1..], lucks[1..])
  }

  /** elf32_load_exec, with the entry point; headersOk says whether the disk gave the headers. */
  ghost function LoadExec(s: Machine, m: nat, file: File, headersOk: bool, lucks: seq<Luck>): (Machine, Outcome, nat)
    requires LucksOk(lucks) && Shape(s) && m in s.mms && s.mms[m].pgd < DIRS
  {
    if !headersOk then (s, Failed, 0)
    else
      match ReadHeaders(file.content)
      case None => (s, Failed, 0)
      case Some(h) =>
        if |lucks| != |h.phdrs| then (s, Halted, 0)
        else
          var (r, o) := LoadSegments(s, m, file, h.phdrs, lucks);
          (r, o, h.entry)
  }
}
