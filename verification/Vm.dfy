/** Physical frames, page directories, page tables, the TLB and address spaces as one machine state,
    with the operations the kernel performs on it. Pages are numbered from 0 to 2^20 - 1. */
module Vm {
  import opened Words

  const FRAMES: nat := 16384
  const KERNEL_FRAMES: nat := 1024
  const DIRS: nat := 16
  const TABLES: nat := 64
  const ENTRIES: nat := 1024
  const PAGE: nat := 4096
  const PAGES: nat := 1048576
  const HIGH_KERNEL: nat := 768   // directory slot of the higher-half kernel mapping

  /** A page directory entry: absent, the boot page table (present, supervisor), or a pool table
      (present, user). */
  datatype Pde = NoTable | KernelTable | UserTable(table: nat)

  /** A page table entry: absent, or a present, writable user mapping of a frame. */
  datatype Pte = NoPage | Page(frame: nat)

  /** What cr3 can name: the boot page directory or a slot of the directory pool. */
  datatype Dir = Boot | Pool(slot: nat)

  datatype File = File(id: nat, content: seq<Byte>)

  datatype Area = Area(start: nat, end: nat, offset: nat, file: Option<File>) {
    predicate Covers(p: nat) { start <= p * PAGE < end }
  }

  datatype Mm = Mm(pgd: nat, areas: seq<Area>)

  datatype Slot = Slot(at: nat, index: nat)

  /** Who uses what: the address space of a directory, the directory entry of a table, the table entry of
      a frame. Bookkeeping of the model, not of the kernel. */
  datatype Owners = Owners(dir: map<nat, nat>, table: map<nat, Slot>, frame: map<nat, Slot>)

  datatype Machine = Machine(
    frameUse: seq<bool>,
    dirUse: seq<bool>,
    dirs: seq<seq<Pde>>,
    tableUse: seq<bool>,
    tables: seq<seq<Pte>>,
    ram: seq<seq<Byte>>,
    cr3: Dir,
    tlb: map<nat, nat>,
    mms: map<nat, Mm>,
    own: Owners)

  // ----- translation

  function Pdi(p: nat): nat { p / ENTRIES }
  function Pti(p: nat): nat { p % ENTRIES }

  lemma PageSplit(p: nat, q: nat)
    requires Pdi(p) == Pdi(q) && Pti(p) == Pti(q)
    ensures p == q
  {
  }

  predicate KernelSlot(i: nat) { i == 0 || i == HIGH_KERNEL }

  predicate Shape(s: Machine) {
    && |s.frameUse| == FRAMES && |s.dirUse| == DIRS && |s.tableUse| == TABLES
    && |s.dirs| == DIRS && (forall d :: 0 <= d < DIRS ==> |s.dirs[d]| == ENTRIES)
    && |s.tables| == TABLES && (forall t :: 0 <= t < TABLES ==> |s.tables[t]| == ENTRIES)
    && |s.ram| == FRAMES && (forall f :: 0 <= f < FRAMES ==> |s.ram[f]| == PAGE)
  }

  function PdeOf(s: Machine, d: Dir, i: nat): Pde {
    match d
    case Boot => if KernelSlot(i) then KernelTable else NoTable
    case Pool(k) => if k < |s.dirs| && i < |s.dirs[k]| then s.dirs[k][i] else NoTable
  }

  function PteOf(s: Machine, t: nat, j: nat): Pte {
    if t < |s.tables| && j < |s.tables[t]| then s.tables[t][j] else NoPage
  }

  function RamAt(s: Machine, f: nat, k: nat): Option<Byte> {
    if f < |s.ram| && k < |s.ram[f]| then Some(s.ram[f][k]) else None
  }

  predicate FrameUsed(s: Machine, f: nat) { f < |s.frameUse| && s.frameUse[f] }
  predicate TableUsed(s: Machine, t: nat) { t < |s.tableUse| && s.tableUse[t] }
  predicate DirUsed(s: Machine, d: nat) { d < |s.dirUse| && s.dirUse[d] }

  /** The two-level page walk: the frame a page is mapped to. The boot table maps its pages one to one. */
  function Walk(s: Machine, d: Dir, p: nat): Option<nat> {
    match PdeOf(s, d, Pdi(p))
    case NoTable => None
    case KernelTable => Some(Pti(p))
    case UserTable(t) => if PteOf(s, t, Pti(p)).Page? then Some(PteOf(s, t, Pti(p)).frame) else None
  }

  // ----- invariant

  /** A directory is in use exactly when one address space owns it, and then it has the kernel entries. */
  ghost predicate DirOk(s: Machine, d: nat) {
    && (DirUsed(s, d) <==> d in s.own.dir)
    && (d in s.own.dir ==> d < DIRS && s.own.dir[d] in s.mms && s.mms[s.own.dir[d]].pgd == d)
  }

  ghost predicate KernelOk(s: Machine, d: nat, i: nat) {
    d in s.own.dir ==> (PdeOf(s, Pool(d), i).KernelTable? <==> KernelSlot(i))
  }

  ghost predicate MmOk(s: Machine, m: nat) {
    m in s.mms ==> s.mms[m].pgd in s.own.dir && s.own.dir[s.mms[m].pgd] == m
  }

  /** A table is in use exactly when one directory entry owns it, and that entry names it. */
  ghost predicate TableOk(s: Machine, t: nat) {
    && (TableUsed(s, t) <==> t in s.own.table)
    && (t in s.own.table ==>
          var o := s.own.table[t];
          t < TABLES && o.at in s.own.dir && o.index < ENTRIES && PdeOf(s, Pool(o.at), o.index) == UserTable(t))
  }

  /** No directory entry but its owner names a table. */
  ghost predicate EntryOk(s: Machine, d: nat, i: nat) {
    var e := PdeOf(s, Pool(d), i);
    d in s.own.dir && e.UserTable? ==> e.table in s.own.table && s.own.table[e.table] == Slot(d, i)
  }

  /** A frame is in use exactly when it is the kernel's or one table entry owns it, and that entry maps it. */
  ghost predicate FrameOk(s: Machine, f: nat) {
    && (FrameUsed(s, f) <==> f < KERNEL_FRAMES || f in s.own.frame)
    && (f in s.own.frame ==>
          var o := s.own.frame[f];
          KERNEL_FRAMES <= f < FRAMES && o.at in s.own.table && o.index < ENTRIES && PteOf(s, o.at, o.index) == Page(f))
  }

  /** No entry of a table in use but its owner maps a frame. */
  ghost predicate MappingOk(s: Machine, t: nat, j: nat) {
    var e := PteOf(s, t, j);
    t in s.own.table && e.Page? ==> e.frame in s.own.frame && s.own.frame[e.frame] == Slot(t, j)
  }

  ghost predicate DirLive(s: Machine, d: Dir) {
    d.Pool? ==> d.slot in s.own.dir
  }

  /** A cached translation is what the page walk from the current directory gives. */
  ghost predicate TlbOk(s: Machine, p: nat) {
    p in s.tlb ==> p < PAGES && Walk(s, s.cr3, p) == Some(s.tlb[p])
  }

  ghost predicate Ownership(s: Machine) {
    && (forall d :: DirOk(s, d)) && (forall d, i :: KernelOk(s, d, i)) && (forall m :: MmOk(s, m))
    && (forall t :: TableOk(s, t)) && (forall d, i :: EntryOk(s, d, i))
    && (forall f :: FrameOk(s, f)) && (forall t, j :: MappingOk(s, t, j))
  }

  ghost predicate Inv(s: Machine) {
    Shape(s) && Ownership(s) && DirLive(s, s.cr3) && (forall p :: TlbOk(s, p))
  }

  // ----- memory as a program sees it

  /** Bytes that the fault handler puts into page p of area v: file bytes from the page's file offset,
      computed in 32 bits, then zeros. */
  function FillByte(v: Area, p: nat, k: nat): Byte
    requires v.Covers(p)
  {
    if v.file == None then 0
    else
      var from := (v.offset + (p * PAGE - v.start)) % WORD;
      var c := v.file.value.content;
      if from + k < |c| then c[from + k] else 0
  }

  function FillPage(v: Area, p: nat): (r: seq<Byte>)
    requires v.Covers(p)
    ensures |r| == PAGE
  {
    seq(PAGE, k requires 0 <= k < PAGE => FillByte(v, p, k))
  }

  /** find_vma: the first area that covers the page. */
  function FindArea(vs: seq<Area>, p: nat): (r: Option<Area>)
    ensures r.Some? ==> r.value in vs && r.value.Covers(p)
  {
    if vs == [] then None else if vs[0].Covers(p) then Some(vs[0]) else FindArea(vs[1..], p)
  }

  /** Byte k of page p in address space m: the mapped byte, or the one a fault would bring in. */
  function ByteAt(s: Machine, m: nat, p: nat, k: nat): Option<Byte>
    requires m in s.mms
  {
    match Walk(s, Pool(s.mms[m].pgd), p)
    case Some(f) => RamAt(s, f, k)
    case None =>
      match FindArea(s.mms[m].areas, p)
      case None => None
      case Some(v) => Some(FillByte(v, p, k))
  }

  // ----- allocators

  /** Index of the first unused slot, or the length. */
  function FirstFree(use: seq<bool>): (i: nat)
    ensures i <= |use|
    ensures i < |use| ==> !use[i]
    ensures forall k :: 0 <= k < i ==> use[k]
  {
    if use == [] || !use[0] then 0 else 1 + FirstFree(use[1..])
  }

  // ----- operations

  function EmptyTable(): seq<Pte> {
    seq(ENTRIES, j => NoPage)
  }

  /** alloc_pt and the directory entry that points to the new table. */
  function AddTable(s: Machine, d: nat, i: nat, t: nat): Machine
    requires Shape(s) && d < DIRS && i < ENTRIES && t < TABLES
  {
    s.(tableUse := s.tableUse[t := true], tables := s.tables[t := EmptyTable()],
       dirs := s.dirs[d := s.dirs[d][i := UserTable(t)]],
       own := s.own.(table := s.own.table[t := Slot(d, i)]))
  }

  /** alloc_phys_frame, map_page with its TLB invalidation, and the page contents written through the new
      mapping, which the TLB then caches. */
  function AddPage(s: Machine, t: nat, p: nat, f: nat, content: seq<Byte>): Machine
    requires Shape(s) && t < TABLES && p < PAGES && f < FRAMES && |content| == PAGE
  {
    s.(frameUse := s.frameUse[f := true], tables := s.tables[t := s.tables[t][Pti(p) := Page(f)]],
       ram := s.ram[f := content], tlb := s.tlb[p := f],
       own := s.own.(frame := s.own.frame[f := Slot(t, Pti(p))]))
  }

  datatype Fault = Resolved | Panic

  /** How reading the file part of a page ended, with the bytes a failed read left in the frame. */
  datatype Read = ReadOk | ReadFailed(left: seq<Byte>)

  function EnsureTable(s: Machine, d: nat, i: nat): Machine
    requires Shape(s) && d < DIRS && i < ENTRIES
  {
    if PdeOf(s, Pool(d), i) == NoTable && FirstFree(s.tableUse) < TABLES then AddTable(s, d, i, FirstFree(s.tableUse))
    else s
  }

  /** unmap_page and free_phys_frame after a failed read: only the bytes left in the free frame remain. */
  function Unread(s: Machine, p: nat, f: nat, left: seq<Byte>): Machine
    requires Shape(s) && f < FRAMES && |left| == PAGE
  {
    s.(ram := s.ram[f := left], tlb := s.tlb - {p})
  }

  /** The page fault handler for a page that is not mapped in the current address space m. */
  function PageFault(s: Machine, m: nat, p: nat, read: Read): (Machine, Fault)
    requires Shape(s) && m in s.mms && s.mms[m].pgd < DIRS && p < PAGES
    requires read.ReadFailed? ==> |read.left| == PAGE
  {
    var d := s.mms[m].pgd;
    var v := FindArea(s.mms[m].areas, p);
    var f := FirstFree(s.frameUse);
    if v == None || f == FRAMES then (s, Panic)
    else
      var s1 := EnsureTable(s, d, Pdi(p));
      var e := PdeOf(s1, Pool(d), Pdi(p));
      if !e.UserTable? || e.table >= TABLES then (s1, Panic)
      else if read.ReadFailed? then (Unread(s1, p, f, read.left), Panic)
      else (AddPage(s1, e.table, p, f, FillPage(v.value, p)), Resolved)
  }

  function KernelPart(s: Machine, d: Dir): seq<Pde>
  {
    seq(ENTRIES, i requires 0 <= i < ENTRIES => if PdeOf(s, d, i) == KernelTable then KernelTable else NoTable)
  }

  /** create_task_mm: a zeroed directory with the kernel entries of the current one, or failure. */
  function CreateMm(s: Machine, m: nat): (Machine, bool)
    requires Shape(s)
  {
    var d := FirstFree(s.dirUse);
    if d == DIRS then (s, false)
    else (s.(dirUse := s.dirUse[d := true], dirs := s.dirs[d := KernelPart(s, s.cr3)],
             mms := s.mms[m := Mm(d, [])], own := s.own.(dir := s.own.dir[d := m])), true)
  }

  /** set_cr3: flushes the whole TLB. */
  function SetCr3(s: Machine, d: Dir): Machine {
    s.(cr3 := d, tlb := map[])
  }

  function SetAreas(s: Machine, m: nat, vs: seq<Area>): Machine
    requires m in s.mms
  {
    s.(mms := s.mms[m := s.mms[m].(areas := vs)])
  }

  /** Frame f is mapped by a table of directory d. */
  predicate FrameOf(o: Owners, f: nat, d: nat) {
    f in o.frame && o.frame[f].at in o.table && o.table[o.frame[f].at].at == d
  }

  predicate TableOf(o: Owners, t: nat, d: nat) {
    t in o.table && o.table[t].at == d
  }

  function FramesWithout(s: Machine, d: nat): seq<bool>
    requires Shape(s)
  {
    seq(FRAMES, f requires 0 <= f < FRAMES => s.frameUse[f] && !FrameOf(s.own, f, d))
  }

  function TablesWithout(s: Machine, d: nat): seq<bool>
    requires Shape(s)
  {
    seq(TABLES, t requires 0 <= t < TABLES => s.tableUse[t] && !TableOf(s.own, t, d))
  }

  function Cleared(es: seq<Pde>): seq<Pde>
    requires |es| == ENTRIES
  {
    seq(ENTRIES, i requires 0 <= i < ENTRIES => if es[i].UserTable? then NoTable else es[i])
  }

  function OwnersWithout(o: Owners, d: nat): Owners {
    Owners(o.dir - {d}, map t | t in o.table && !TableOf(o, t, d) :: o.table[t],
           map f | f in o.frame && !FrameOf(o, f, d) :: o.frame[f])
  }

  /** release_mm: the frames, the tables and the directory of m go back to their pools. */
  function Release(s: Machine, m: nat): Machine
    requires Shape(s) && m in s.mms && s.mms[m].pgd < DIRS
  {
    var d := s.mms[m].pgd;
    s.(frameUse := FramesWithout(s, d), tableUse := TablesWithout(s, d), dirs := s.dirs[d := Cleared(s.dirs[d])],
       dirUse := s.dirUse[d := false], mms := s.mms - {m}, own := OwnersWithout(s.own, d))
  }

  /** A user store of one byte to a mapped user page. */
  function StoreByte(s: Machine, f: nat, k: nat, b: Byte): Machine
    requires Shape(s) && f < FRAMES && k < PAGE
  {
    var row: seq<Byte> := s.ram[f];
    s.(ram := s.ram[f := row[k := b]])
  }
}
