/** Demand paging refines eager loading: after a successful load, the address space holds the image that
    the program headers describe, whether or not any page has been brought in yet. */
module Loading {
  import opened Words
  import opened Vm
  import opened VmProofs
  import opened VmOwnership
  import opened MmapSpec
  import opened Elf

  // ----- address spaces between loads

  /** Every mapped user page lies in some area. */
  ghost predicate MappedCovered(s: Machine, m: nat)
    requires m in s.mms
  {
    var d := Pool(s.mms[m].pgd);
    forall p: nat :: p < PAGES && PdeOf(s, d, Pdi(p)).UserTable? && Walk(s, d, p).Some? ==>
      FindArea(s.mms[m].areas, p).Some?
  }

  ghost predicate AreasOk(s: Machine, m: nat) {
    m in s.mms && Sorted(s.mms[m].areas) && MappedCovered(s, m)
  }

  predicate UserPage(p: nat) {
    KERNEL_FRAMES <= p < HIGH_KERNEL * ENTRIES
  }

  lemma UserPageSlot(s: Machine, m: nat, p: nat)
    requires Inv(s) && m in s.mms && UserPage(p)
    ensures Pdi(p) < ENTRIES && !KernelSlot(Pdi(p)) && !PdeOf(s, Pool(s.mms[m].pgd), Pdi(p)).KernelTable?
  {
    assert MmOk(s, m) && KernelOk(s, s.mms[m].pgd, Pdi(p));
  }

  /** Pages already covered by an area keep their bytes, and areas are never lost. */
  ghost predicate Extends(s: Machine, r: Machine, m: nat) {
    && m in s.mms && m in r.mms && r.mms[m].pgd == s.mms[m].pgd
    && (forall p: nat, k: nat :: p < PAGES && k < PAGE && FindArea(s.mms[m].areas, p).Some? ==>
          ByteAt(r, m, p, k) == ByteAt(s, m, p, k))
    && (forall p: nat :: p < PAGES && FindArea(s.mms[m].areas, p).Some? ==> FindArea(r.mms[m].areas, p).Some?)
  }

  /** What every step of a load keeps. */
  ghost predicate LoadStep(s: Machine, r: Machine, m: nat) {
    && Inv(r) && AreasOk(r, m) && r.cr3 == s.cr3 && r.mms.Keys == s.mms.Keys
    && Extends(s, r, m)
    && forall u :: u in s.mms && u != m ==> Undisturbed(s, r, u)
  }

  lemma LoadStepTrans(s: Machine, r: Machine, q: Machine, m: nat)
    requires LoadStep(s, r, m) && LoadStep(r, q, m)
    ensures LoadStep(s, q, m)
  {
    forall u | u in s.mms && u != m ensures Undisturbed(s, q, u) {
      assert Undisturbed(s, r, u) && Undisturbed(r, q, u);
    }
  }

  // ----- entering an area

  /** A new area neither hides nor changes what the other areas cover, and is found for its own pages. */
  lemma InsertFinds(vs: seq<Area>, a: Area, p: nat)
    requires Sorted(vs) && WellFormed(a) && Insert(vs, a).Some?
    ensures var r := Insert(vs, a).value;
            && (FindArea(vs, p).Some? ==> FindArea(r, p) == FindArea(vs, p))
            && (a.Covers(p) ==> FindArea(r, p) == Some(a) && FindArea(vs, p) == None)
            && (!a.Covers(p) ==> FindArea(r, p) == FindArea(vs, p))
  {
    var r := Insert(vs, a).value;
    InsertKeeps(vs, a);
    FindAreaComplete(vs, p);
    FindAreaComplete(r, p);
    if a.Covers(p) {
      assert FindArea(r, p) == Some(a);
      NotBoth(vs, a, p);
    } else if FindArea(r, p).Some? {
      assert FindArea(vs, p) == FindArea(r, p);
    }
  }

  lemma NotBoth(vs: seq<Area>, a: Area, p: nat)
    requires Sorted(vs) && WellFormed(a) && Insert(vs, a).Some? && a.Covers(p)
    ensures FindArea(vs, p) == None
  {
    InsertComplete(vs, a);
    FindAreaComplete(vs, p);
    forall v | v in vs ensures !v.Covers(p) {
      assert !Overlap(v, a);
    }
  }

  lemma InsertFindsAll(vs: seq<Area>, a: Area)
    requires Sorted(vs) && WellFormed(a) && Insert(vs, a).Some?
    ensures var n := Insert(vs, a).value;
            && (forall p: nat :: FindArea(vs, p).Some? ==> FindArea(n, p) == FindArea(vs, p))
            && (forall p: nat :: a.Covers(p) ==> FindArea(n, p) == Some(a) && FindArea(vs, p) == None)
  {
    forall p: nat
      ensures FindArea(vs, p).Some? ==> FindArea(Insert(vs, a).value, p) == FindArea(vs, p)
      ensures a.Covers(p) ==> FindArea(Insert(vs, a).value, p) == Some(a) && FindArea(vs, p) == None
    {
      InsertFinds(vs, a, p);
    }
  }

  lemma SetAreasWalks(s: Machine, m: nat, n: seq<Area>, d: Dir)
    requires m in s.mms
    ensures forall p: nat :: Walk(SetAreas(s, m, n), d, p) == Walk(s, d, p)
    ensures forall i: nat :: PdeOf(SetAreas(s, m, n), d, i) == PdeOf(s, d, i)
  {
  }

  lemma MmapBytes(s: Machine, m: nat, a: Area)
    requires Inv(s) && AreasOk(s, m) && WellFormed(a) && Insert(s.mms[m].areas, a).Some?
    ensures var r := SetAreas(s, m, Insert(s.mms[m].areas, a).value);
            && AreasOk(r, m) && Extends(s, r, m)
            && forall p: nat, k: nat :: p < PAGES && k < PAGE && a.Covers(p) && UserPage(p) ==>
                 FindArea(r.mms[m].areas, p).Some? && FindArea(s.mms[m].areas, p) == None
                 && ByteAt(r, m, p, k) == Some(FillByte(a, p, k))
  {
    var vs := s.mms[m].areas;
    var n := Insert(vs, a).value;
    var r := SetAreas(s, m, n);
    InsertKeeps(vs, a);
    InsertFindsAll(vs, a);
    SetAreasWalks(s, m, n, Pool(s.mms[m].pgd));
    forall p: nat | p < PAGES && a.Covers(p) && UserPage(p)
      ensures Walk(r, Pool(s.mms[m].pgd), p) == None
    {
      UserPageSlot(s, m, p);
    }
  }

  lemma MmapKeeps(s: Machine, m: nat, a: Area)
    requires Inv(s) && AreasOk(s, m) && WellFormed(a) && Insert(s.mms[m].areas, a).Some?
    ensures LoadStep(s, SetAreas(s, m, Insert(s.mms[m].areas, a).value), m)
  {
    var n := Insert(s.mms[m].areas, a).value;
    MmapBytes(s, m, a);
    SetAreasKeeps(s, m, n);
    forall u | u in s.mms && u != m ensures Undisturbed(s, SetAreas(s, m, n), u) { SetAreasUndisturbs(s, m, n, u); }
  }

  // ----- zeroing the tail of a page

  ghost predicate ZeroedTail(s: Machine, r: Machine, m: nat, p: nat, from: nat)
    requires m in s.mms && m in r.mms
  {
    forall q: nat, k: nat :: q < PAGES && k < PAGE ==>
      ByteAt(r, m, q, k) == if q == p && from <= k then Some(0) else ByteAt(s, m, q, k)
  }

  lemma ZeroTailKeeps(s: Machine, m: nat, p: nat, f: nat, from: nat)
    requires Inv(s) && Maps(s, m, p, f) && from <= PAGE && s.cr3 == Pool(s.mms[m].pgd)
    ensures f < FRAMES
    ensures var r := ZeroTail(s, f, from).(tlb := s.tlb[p := f]);
            && Inv(r) && r.mms == s.mms && r.cr3 == s.cr3 && ZeroedTail(s, r, m, p, from)
            && (forall d, q :: Walk(r, d, q) == Walk(s, d, q)) && r.dirs == s.dirs
            && (forall u :: u in s.mms && u != m ==> Undisturbed(s, r, u))
  {
    MapsOwned(s, m, p, f);
    var r := ZeroTail(s, f, from).(tlb := s.tlb[p := f]);
    SameOwnership(s, r);
    forall q ensures TlbOk(r, q) { assert TlbOk(s, q); }
    forall u, q: nat, k: nat | u in s.mms && q < PAGES && k < PAGE
      ensures ByteAt(r, u, q, k) == if u == m && q == p && from <= k then Some(0) else ByteAt(s, u, q, k)
    {
      TailOnly(s, r, m, p, f, from, u, q, k);
    }
    forall u | u in s.mms && u != m ensures Undisturbed(s, r, u) {
      forall i: nat ensures PdeOf(r, Pool(s.mms[u].pgd), i) == PdeOf(s, Pool(s.mms[u].pgd), i) {}
    }
  }

  lemma TailOnly(s: Machine, r: Machine, m: nat, p: nat, f: nat, from: nat, u: nat, q: nat, k: nat)
    requires Inv(s) && Maps(s, m, p, f) && f < FRAMES && from <= PAGE && u in s.mms && q < PAGES && k < PAGE
    requires r == ZeroTail(s, f, from).(tlb := s.tlb[p := f])
    ensures ByteAt(r, u, q, k) == if u == m && q == p && from <= k then Some(0) else ByteAt(s, u, q, k)
  {
    SameOwnership(s, r);
    MapsOwned(s, m, p, f);
    assert MmOk(s, u);
    if Walk(s, Pool(s.mms[u].pgd), q) == Some(f) && PdeOf(s, Pool(s.mms[u].pgd), Pdi(q)).UserTable? {
      assert Maps(s, u, q, f);
      MapsOwned(s, u, q, f);
      PageSplit(p, q);
    }
  }

  /** Faults keep every mapped page covered. */
  lemma FaultCovered(s: Machine, m: nat, p: nat, read: Read, u: nat)
    requires MayFault(s, m, p, read) && AreasOk(s, u) && s.mms[m].pgd < DIRS
    ensures AreasOk(PageFault(s, m, p, read).0, u)
  {
    FaultKeeps(s, m, p, read);
    if u != m {
      FaultUndisturbs(s, m, p, read, u);
    } else {
      FaultWalks(s, m, p, read);
    }
  }

  /** A fault maps at most the faulting page, and only when an area covers it. */
  lemma FaultWalks(s: Machine, m: nat, p: nat, read: Read)
    requires MayFault(s, m, p, read)
    ensures s.mms[m].pgd < DIRS
    ensures var (r, o) := PageFault(s, m, p, read); var d := Pool(s.mms[m].pgd);
            && (forall q: nat :: q < PAGES && q != p ==> Walk(r, d, q) == Walk(s, d, q))
            && (forall q: nat :: q < PAGES && Walk(s, d, q).Some? ==>
                  (PdeOf(r, d, Pdi(q)).UserTable? <==> PdeOf(s, d, Pdi(q)).UserTable?))
            && (o == Panic ==> Walk(r, d, p) == None)
            && (o == Resolved ==>
                  FindArea(s.mms[m].areas, p).Some? && Walk(r, d, p).Some? && PdeOf(r, d, Pdi(p)).UserTable?)
  {
    var d := s.mms[m].pgd;
    assert MmOk(s, m) && DirOk(s, d);
    FreshFrame(s);
    NotKernelPage(s, d, p);
    EnsureTableKeeps(s, m, p, read);
    var i, t := Pdi(p), FirstFree(s.tableUse);
    var s1 := EnsureTable(s, d, i);
    if PdeOf(s, Pool(d), i) == NoTable && t < TABLES {
      AddTableEffect(s, d, i, t);
      forall q ensures Walk(s1, Pool(d), q) == Walk(s, Pool(d), q) { AddTableWalks(s, s1, d, i, t, Pool(d), q); }
    }
    var v, f, e := FindArea(s.mms[m].areas, p), FirstFree(s.frameUse), PdeOf(s1, Pool(d), i);
    if v.Some? && f < FRAMES && e.UserTable? {
      LastStepWalks(s1, m, p, read, v.value, e.table, f);
    }
  }

  lemma LastStepWalks(s: Machine, m: nat, p: nat, read: Read, v: Area, t: nat, f: nat)
    requires m in s.mms && CanMap(s, s.mms[m].pgd, t, p, f) && (read.ReadFailed? ==> |read.left| == PAGE)
    ensures var r := if read.ReadFailed? then Unread(s, p, f, read.left)
                     else if v.Covers(p) then AddPage(s, t, p, f, FillPage(v, p)) else s;
            var d := Pool(s.mms[m].pgd);
            && (forall q :: q != p ==> Walk(r, d, q) == Walk(s, d, q)) && r.dirs == s.dirs
            && (forall i: nat :: PdeOf(r, d, i) == PdeOf(s, d, i))
            && (read.ReadFailed? ==> Walk(r, d, p) == Walk(s, d, p))
            && (!read.ReadFailed? && v.Covers(p) ==> Walk(r, d, p) == Some(f))
  {
    if read.ReadFailed? {
      UnreadKeeps(s, p, f, read.left);
      SameOwnership(s, Unread(s, p, f, read.left));
    } else if v.Covers(p) {
      var r := AddPage(s, t, p, f, FillPage(v, p));
      AddPageEffect(s, t, p, f, FillPage(v, p));
      forall q ensures Walk(r, Pool(s.mms[m].pgd), q) == if q == p then Some(f) else Walk(s, Pool(s.mms[m].pgd), q) {
        AddPageWalks(s, r, s.mms[m].pgd, t, p, f, FillPage(v, p), Pool(s.mms[m].pgd), q);
      }
    }
  }

  /** Everything but the bytes of address space m is as after a load step. */
  ghost predicate WriteStep(s: Machine, r: Machine, m: nat, p: nat, from: nat) {
    && Inv(r) && AreasOk(r, m) && r.mms == s.mms && ZeroedTail(s, r, m, p, from)
    && forall u :: u in s.mms && u != m ==> Undisturbed(s, r, u)
  }

  /** Nothing that a program can see differs; pages and the TLB may. */
  ghost predicate Same(s: Machine, r: Machine, m: nat) {
    && Inv(r) && AreasOk(r, m) && r.mms == s.mms && m in s.mms && SameBytes(s, r, m)
    && forall u :: u in s.mms && u != m ==> Undisturbed(s, r, u)
  }

  lemma WriteAfterSame(s: Machine, s1: Machine, s2: Machine, r: Machine, m: nat, p: nat, from: nat)
    requires Same(s, s1, m) && WriteStep(s1, s2, m, p, from) && Same(s2, r, m)
    ensures WriteStep(s, r, m, p, from)
  {
    forall u | u in s.mms && u != m ensures Undisturbed(s, r, u) {
      assert Undisturbed(s, s1, u) && Undisturbed(s1, s2, u) && Undisturbed(s2, r, u);
    }
  }

  lemma FaultForZero(s: Machine, m: nat, p: nat, read: Read)
    requires MayFault(s, m, p, read) && AreasOk(s, m) && UserPage(p)
    ensures s.mms[m].pgd < DIRS
    ensures var (r, o) := PageFault(s, m, p, read);
            o == Resolved ==>
              Same(s, r, m) && r.cr3 == s.cr3 && Walk(r, r.cr3, p).Some? && PdeOf(r, r.cr3, Pdi(p)).UserTable?
  {
    FaultKeeps(s, m, p, read);
    FaultCovered(s, m, p, read, m);
    FaultWalks(s, m, p, read);
    forall u | u in s.mms && u != m ensures Undisturbed(s, PageFault(s, m, p, read).0, u) {
      FaultUndisturbs(s, m, p, read, u);
    }
  }

  lemma ZeroPageKeeps(s: Machine, m: nat, p: nat, from: nat, read: Read)
    requires FaultReady(s, m, read) && p < PAGES && from <= PAGE
    requires Inv(s) && AreasOk(s, m) && s.cr3 == Pool(s.mms[m].pgd) && UserPage(p)
    ensures var (r, o) := ZeroPage(s, m, p, from, read);
            o == Halted || (o == Loaded && WriteStep(s, r, m, p, from) && r.cr3 == s.cr3)
  {
    UserPageSlot(s, m, p);
    if Walk(s, s.cr3, p) == None {
      FaultForZero(s, m, p, read);
    }
    var (r, fault) := if Walk(s, s.cr3, p) == None then PageFault(s, m, p, read) else (s, Resolved);
    if fault == Resolved {
      var f := Walk(r, r.cr3, p).value;
      assert Maps(r, m, p, f);
      ZeroMapped(r, m, p, f, from);
      var z := ZeroTail(r, f, from).(tlb := r.tlb[p := f]);
      WriteAfterSame(s, r, z, z, m, p, from);
    }
  }

  lemma ZeroMapped(s: Machine, m: nat, p: nat, f: nat, from: nat)
    requires Inv(s) && AreasOk(s, m) && Maps(s, m, p, f) && from <= PAGE && s.cr3 == Pool(s.mms[m].pgd)
    ensures f < FRAMES
    ensures var r := ZeroTail(s, f, from).(tlb := s.tlb[p := f]);
            WriteStep(s, r, m, p, from) && r.cr3 == s.cr3 && Same(r, r, m)
  {
    ZeroTailKeeps(s, m, p, f, from);
    ZeroedCovered(s, ZeroTail(s, f, from).(tlb := s.tlb[p := f]), m);
  }

  lemma ZeroedCovered(s: Machine, r: Machine, m: nat)
    requires AreasOk(s, m) && r.mms == s.mms && r.dirs == s.dirs && forall d, q :: Walk(r, d, q) == Walk(s, d, q)
    ensures AreasOk(r, m)
  {
    assert forall d, i :: PdeOf(r, d, i) == PdeOf(s, d, i);
  }

  lemma SwitchSame(s: Machine, d: Dir, m: nat)
    requires Inv(s) && AreasOk(s, m) && DirLive(s, d)
    ensures Same(s, SetCr3(s, d), m)
  {
    SetCr3Keeps(s, d);
    SetCr3Undisturbs(s, d, m);
    forall u | u in s.mms ensures Undisturbed(s, SetCr3(s, d), u) { SetCr3Undisturbs(s, d, u); }
  }

  /** The directories in use are those of the address spaces, so what was live stays live. */
  lemma StaysLive(s: Machine, r: Machine, d: Dir)
    requires Inv(s) && Inv(r) && DirLive(s, d)
    requires forall u :: u in s.mms ==> u in r.mms && r.mms[u].pgd == s.mms[u].pgd
    ensures DirLive(r, d)
  {
    if d.Pool? {
      assert DirOk(s, d.slot);
      assert MmOk(r, s.own.dir[d.slot]);
    }
  }

  // ----- padzero

  lemma AlignUpFacts(a: nat)
    requires a + PAGE <= WORD
    ensures a <= AlignUp(a) < a + PAGE && AlignUp(a) % PAGE == 0
    ensures AlignUp(a) == a <==> a % PAGE == 0
    ensures a % PAGE != 0 ==> AlignUp(a) == (a / PAGE + 1) * PAGE
  {
  }

  /** Switching to the target directory, writing, and switching back. */
  lemma Bracketed(s: Machine, s1: Machine, s2: Machine, m: nat, p: nat, from: nat)
    requires Inv(s) && AreasOk(s, m)
    requires s1 == if s.cr3 != Pool(s.mms[m].pgd) then SetCr3(s, Pool(s.mms[m].pgd)) else s
    requires WriteStep(s1, s2, m, p, from)
    ensures var r := if s.cr3 != Pool(s.mms[m].pgd) then SetCr3(s2, s.cr3) else s2; WriteStep(s, r, m, p, from)
  {
    assert MmOk(s, m);
    if s.cr3 != Pool(s.mms[m].pgd) {
      SwitchSame(s, Pool(s.mms[m].pgd), m);
      StaysLive(s, s2, s.cr3);
      SwitchSame(s2, s.cr3, m);
      WriteAfterSame(s, s1, s2, SetCr3(s2, s.cr3), m, p, from);
    }
  }

  /** padzero zeroes from the address to the end of its page and changes nothing else that a program sees. */
  lemma PadZeroKeeps(s: Machine, m: nat, addr: nat, read: Read)
    requires FaultReady(s, m, read) && Inv(s) && AreasOk(s, m)
    requires 0x40_0000 <= addr < 0xc000_0000 && addr % PAGE != 0
    ensures var (r, o) := PadZero(s, m, addr, read);
            o == Halted || (o == Loaded && r.cr3 == s.cr3 && WriteStep(s, r, m, addr / PAGE, addr % PAGE))
  {
    AlignUpFacts(addr);
    assert MmOk(s, m);
    var target := Pool(s.mms[m].pgd);
    SwitchSame(s, target, m);
    var s1 := if s.cr3 != target then SetCr3(s, target) else s;
    ZeroPageKeeps(s1, m, addr / PAGE, addr % PAGE, read);
    var (s2, o) := ZeroPage(s1, m, addr / PAGE, addr % PAGE, read);
    if o == Loaded {
      Bracketed(s, s1, s2, m, addr / PAGE, addr % PAGE);
    }
  }

  lemma PadZeroAligned(s: Machine, m: nat, addr: nat, read: Read)
    requires FaultReady(s, m, read) && Inv(s) && AreasOk(s, m)
    requires addr + PAGE <= WORD && addr % PAGE == 0
    ensures var (r, o) := PadZero(s, m, addr, read); o == Loaded && r.cr3 == s.cr3 && Same(s, r, m)
  {
    AlignUpFacts(addr);
    assert MmOk(s, m);
    var target := Pool(s.mms[m].pgd);
    if s.cr3 != target {
      SwitchSame(s, target, m);
      StaysLive(s, SetCr3(s, target), s.cr3);
      SwitchSame(SetCr3(s, target), s.cr3, m);
      forall u | u in s.mms && u != m ensures Undisturbed(s, SetCr3(SetCr3(s, target), s.cr3), u) {
        assert Undisturbed(s, SetCr3(s, target), u)
            && Undisturbed(SetCr3(s, target), SetCr3(SetCr3(s, target), s.cr3), u);
      }
    }
  }

  // ----- one segment

  /** The segment lies above the kernel's low mapping and below the higher half. */
  predicate Placed(ph: Phdr) {
    ph.kind == PT_LOAD ==> 0x40_0000 <= ph.vaddr && ph.vaddr + ph.memsz <= 0xc000_0000
  }

  predicate InFile(ph: Phdr, file: File) {
    ph.kind == PT_LOAD ==> ph.offset + ph.filesz <= |file.content| < WORD
  }

  function ImageByte(ph: Phdr, file: File, a: nat): Byte
    requires ph.vaddr <= a
  {
    var i := a - ph.vaddr;
    if i < ph.filesz && ph.offset + i < |file.content| then file.content[ph.offset + i] else 0
  }

  /** Byte k of page p belongs to the segment's addresses below hi. */
  predicate InSegment(ph: Phdr, hi: nat, p: nat, k: nat) {
    p < PAGES && k < PAGE && ph.vaddr <= p * PAGE + k < hi
  }

  ghost predicate HoldsAt(s: Machine, m: nat, ph: Phdr, file: File, p: nat, k: nat)
    requires m in s.mms && ph.vaddr <= p * PAGE + k
  {
    FindArea(s.mms[m].areas, p).Some? && ByteAt(s, m, p, k) == Some(ImageByte(ph, file, p * PAGE + k))
  }

  /** The address space holds the image of the segment up to address hi, and areas cover it. */
  ghost predicate HoldsUpTo(s: Machine, m: nat, ph: Phdr, file: File, hi: nat)
    requires m in s.mms
  {
    forall p: nat, k: nat :: InSegment(ph, hi, p, k) ==> HoldsAt(s, m, ph, file, p, k)
  }

  ghost predicate Holds(s: Machine, m: nat, ph: Phdr, file: File) {
    m in s.mms && (ph.kind == PT_LOAD ==> HoldsUpTo(s, m, ph, file, ph.vaddr + ph.memsz))
  }

  lemma StillHolds(s: Machine, r: Machine, m: nat, ph: Phdr, file: File, hi: nat)
    requires LoadStep(s, r, m) && HoldsUpTo(s, m, ph, file, hi)
    ensures HoldsUpTo(r, m, ph, file, hi)
  {
    forall p: nat, k: nat | InSegment(ph, hi, p, k) ensures HoldsAt(r, m, ph, file, p, k) {
      assert HoldsAt(s, m, ph, file, p, k);
    }
  }

  /** What an area backed by the file holds at the addresses of the file part. */
  lemma FileFill(ph: Phdr, file: File, p: nat, k: nat)
    requires ph.kind == PT_LOAD && Placed(ph) && InFile(ph, file) && 0 < ph.filesz <= ph.memsz && k < PAGE
    requires !BadOffset(ph.vaddr, Some(file), ph.offset)
    requires ph.vaddr <= p * PAGE + k < ph.vaddr + ph.filesz
    ensures var v := NewArea(ph.vaddr, ph.filesz, Some(file), ph.offset);
            v.Covers(p) && FillByte(v, p, k) == ImageByte(ph, file, p * PAGE + k)
  {
    NewAreaCovers(ph.vaddr, ph.filesz, Some(file), ph.offset);
    FilePosition(ph, file, p);
  }

  /** The file position that the fault handler computes for page p. */
  lemma FilePosition(ph: Phdr, file: File, p: nat)
    requires ph.kind == PT_LOAD && InFile(ph, file) && ph.vaddr < WORD
    requires !BadOffset(ph.vaddr, Some(file), ph.offset) && AlignDown(ph.vaddr) <= p * PAGE < ph.vaddr + ph.filesz
    ensures var v := NewArea(ph.vaddr, ph.filesz, Some(file), ph.offset);
            (v.offset + (p * PAGE - v.start)) % WORD == ph.offset + p * PAGE - ph.vaddr
  {
    var v := NewArea(ph.vaddr, ph.filesz, Some(file), ph.offset);
    var from := v.offset + (p * PAGE - v.start);
    assert from == ph.offset + p * PAGE - ph.vaddr;
    assert 0 <= from < WORD;
  }

  lemma SegmentPages(ph: Phdr, p: nat, k: nat)
    requires ph.kind == PT_LOAD && Placed(ph) && InSegment(ph, ph.vaddr + ph.memsz, p, k)
    ensures UserPage(p)
  {
  }

  lemma ByteCovered(addr: nat, length: nat, file: Option<File>, offset: nat, p: nat, k: nat)
    requires !BadOffset(addr, file, offset) && length > 0 && addr + length + PAGE <= WORD
    requires k < PAGE && addr <= p * PAGE + k < addr + length
    ensures NewArea(addr, length, file, offset).Covers(p)
  {
    NewAreaCovers(addr, length, file, offset);
  }

  /** Entering the file part. */
  lemma FilePartHolds(s: Machine, m: nat, ph: Phdr, file: File)
    requires Inv(s) && AreasOk(s, m) && ph.kind == PT_LOAD && Placed(ph) && 0 < ph.filesz <= ph.memsz
    requires !BadOffset(ph.vaddr, Some(file), ph.offset)
    requires Insert(s.mms[m].areas, NewArea(ph.vaddr, ph.filesz, Some(file), ph.offset)).Some?
    ensures var v := NewArea(ph.vaddr, ph.filesz, Some(file), ph.offset);
            var r := SetAreas(s, m, Insert(s.mms[m].areas, v).value);
            && WellFormed(v) && LoadStep(s, r, m)
            && (InFile(ph, file) ==> HoldsUpTo(r, m, ph, file, ph.vaddr + ph.filesz))
            && (forall p: nat :: p < PAGES && v.Covers(p) && UserPage(p) ==>
                  FindArea(r.mms[m].areas, p).Some? && FindArea(s.mms[m].areas, p) == None)
  {
    var v := NewArea(ph.vaddr, ph.filesz, Some(file), ph.offset);
    NewAreaCovers(ph.vaddr, ph.filesz, Some(file), ph.offset);
    MmapKeeps(s, m, v);
    MmapBytes(s, m, v);
    var r := SetAreas(s, m, Insert(s.mms[m].areas, v).value);
    if InFile(ph, file) {
      forall p: nat, k: nat | InSegment(ph, ph.vaddr + ph.filesz, p, k) ensures HoldsAt(r, m, ph, file, p, k) {
        SegmentPages(ph, p, k);
        FileFill(ph, file, p, k);
      }
    }
    forall p: nat | p < PAGES && v.Covers(p) && UserPage(p)
      ensures FindArea(r.mms[m].areas, p).Some? && FindArea(s.mms[m].areas, p) == None
    {
      assert ByteAt(r, m, p, 0) == Some(FillByte(v, p, 0));
    }
  }

  /** Entering an anonymous area of zeros from lo to the end of the segment. */
  lemma ZeroPartHolds(s: Machine, m: nat, ph: Phdr, file: File, lo: nat)
    requires Inv(s) && AreasOk(s, m) && ph.kind == PT_LOAD && Placed(ph)
    requires ph.vaddr + ph.filesz <= lo < ph.vaddr + ph.memsz && HoldsUpTo(s, m, ph, file, lo)
    requires Insert(s.mms[m].areas, NewArea(lo, ph.vaddr + ph.memsz - lo, None, 0)).Some?
    ensures var v := NewArea(lo, ph.vaddr + ph.memsz - lo, None, 0);
            var r := SetAreas(s, m, Insert(s.mms[m].areas, v).value);
            LoadStep(s, r, m) && HoldsUpTo(r, m, ph, file, ph.vaddr + ph.memsz)
  {
    var v := NewArea(lo, ph.vaddr + ph.memsz - lo, None, 0);
    NewAreaCovers(lo, ph.vaddr + ph.memsz - lo, None, 0);
    MmapKeeps(s, m, v);
    MmapBytes(s, m, v);
    var r := SetAreas(s, m, Insert(s.mms[m].areas, v).value);
    StillHolds(s, r, m, ph, file, lo);
    forall p: nat, k: nat | InSegment(ph, ph.vaddr + ph.memsz, p, k) ensures HoldsAt(r, m, ph, file, p, k) {
      if p * PAGE + k >= lo {
        SegmentPages(ph, p, k);
        ByteCovered(lo, ph.vaddr + ph.memsz - lo, None, 0, p, k);
        assert ByteAt(r, m, p, k) == Some(FillByte(v, p, k));
      } else {
        assert InSegment(ph, lo, p, k);
      }
    }
  }

  /** Zeroing the rest of the last file page. */
  lemma TailHolds(s: Machine, r: Machine, m: nat, ph: Phdr, file: File, p: nat, from: nat)
    requires ph.kind == PT_LOAD && p < PAGES && from < PAGE && p * PAGE + from == ph.vaddr + ph.filesz
    requires m in s.mms && WriteStep(s, r, m, p, from) && FindArea(s.mms[m].areas, p).Some?
    requires HoldsUpTo(s, m, ph, file, ph.vaddr + ph.filesz)
    ensures HoldsUpTo(r, m, ph, file, (p + 1) * PAGE)
  {
    forall q: nat, k: nat | InSegment(ph, (p + 1) * PAGE, q, k) ensures HoldsAt(r, m, ph, file, q, k) {
      if q * PAGE + k < ph.vaddr + ph.filesz {
        assert InSegment(ph, ph.vaddr + ph.filesz, q, k) && HoldsAt(s, m, ph, file, q, k);
      } else {
        assert q == p && from <= k;
      }
    }
  }

  lemma WriteExtends(s: Machine, s1: Machine, s2: Machine, m: nat, p: nat, from: nat)
    requires LoadStep(s, s1, m) && WriteStep(s1, s2, m, p, from) && s2.cr3 == s1.cr3
    requires FindArea(s.mms[m].areas, p) == None || from == PAGE
    ensures LoadStep(s, s2, m)
  {
    forall u | u in s.mms && u != m ensures Undisturbed(s, s2, u) {
      assert Undisturbed(s, s1, u) && Undisturbed(s1, s2, u);
    }
  }

  lemma LoadStepSelf(s: Machine, m: nat)
    requires Inv(s) && AreasOk(s, m)
    ensures LoadStep(s, s, m)
  {
  }

  lemma ZeroSegment(s: Machine, m: nat, file: File, ph: Phdr, luck: Luck)
    requires FaultReady(s, m, luck.read) && Inv(s) && AreasOk(s, m) && Placed(ph)
    requires ph.kind == PT_LOAD && ph.filesz == 0
    ensures var (r, o) := LoadSegment(s, m, file, ph, luck);
            LoadStep(s, r, m) && o != Halted && (o == Loaded ==> Holds(r, m, ph, file))
  {
    LoadStepSelf(s, m);
    if ph.memsz > 0 && DoMmap(s, m, ph.vaddr, ph.memsz, None, 0, luck.brkOk).Some? {
      ZeroPartHolds(s, m, ph, file, ph.vaddr);
    }
  }

  /** How far the image reaches before the anonymous area is entered. */
  function PaddedEnd(ph: Phdr): nat {
    if ph.filesz < ph.memsz then AlignUp(ph.vaddr + ph.filesz) else ph.vaddr + ph.filesz
  }

  lemma SegmentNoWrap(ph: Phdr)
    requires ph.kind == PT_LOAD && Placed(ph) && ph.filesz <= ph.memsz
    ensures (ph.vaddr + ph.filesz) % WORD == ph.vaddr + ph.filesz
    ensures (ph.vaddr + ph.memsz) % WORD == ph.vaddr + ph.memsz
  {
  }

  /** What the rounds of the load do when no address wraps. */
  lemma TailsUnwrapped(s: Machine, m: nat, ph: Phdr, luck: Luck)
    requires FaultReady(s, m, luck.read) && ph.kind == PT_LOAD && Placed(ph) && ph.filesz <= ph.memsz
    ensures PadTail(s, m, ph, luck) == if ph.filesz < ph.memsz then PadZero(s, m, ph.vaddr + ph.filesz, luck.read)
                                       else (s, Loaded)
  {
    SegmentNoWrap(ph);
  }

  lemma BrkUnwrapped(s: Machine, m: nat, ph: Phdr, luck: Luck) returns (a: Area)
    requires m in s.mms && ph.kind == PT_LOAD && Placed(ph) && 0 < ph.filesz <= ph.memsz
    ensures var lo, hi := AlignUp(ph.vaddr + ph.filesz), ph.vaddr + ph.memsz;
            (if lo < hi then
                  && WellFormed(a) && a == NewArea(lo, hi - lo, None, 0) && PaddedEnd(ph) == lo
                  && ph.vaddr + ph.filesz <= lo
                  && BrkTail(s, m, ph, luck) == (if luck.brkOk && Insert(s.mms[m].areas, a).Some?
                                                 then (SetAreas(s, m, Insert(s.mms[m].areas, a).value), Loaded)
                                                 else (s, Failed))
                else BrkTail(s, m, ph, luck) == (s, Loaded) && hi <= PaddedEnd(ph))
  {
    var lo, hi := AlignUp(ph.vaddr + ph.filesz), ph.vaddr + ph.memsz;
    SegmentNoWrap(ph);
    AlignUpFacts(ph.vaddr + ph.filesz);
    a := NewArea(lo, if lo < hi then hi - lo else 0, None, 0);
    if lo < hi {
      NewAreaCovers(lo, hi - lo, None, 0);
    }
  }

  /** padzero after the file part either halts or zeroes to the next page boundary. */
  lemma PadSteps(s1: Machine, m: nat, ph: Phdr, luck: Luck)
    requires FaultReady(s1, m, luck.read) && Inv(s1) && AreasOk(s1, m) && Placed(ph)
    requires ph.kind == PT_LOAD && 0 < ph.filesz < ph.memsz
    ensures var (s2, o) := PadTail(s1, m, ph, luck);
            o == Halted || (o == Loaded && s2.cr3 == s1.cr3 && Padded(s1, s2, m, ph.vaddr + ph.filesz))
  {
    TailsUnwrapped(s1, m, ph, luck);
    PadZeroPads(s1, m, ph.vaddr + ph.filesz, luck.read);
  }

  lemma PadZeroPads(s1: Machine, m: nat, end: nat, read: Read)
    requires FaultReady(s1, m, read) && Inv(s1) && AreasOk(s1, m) && 0x40_0000 <= end < 0xc000_0000
    ensures var (s2, o) := PadZero(s1, m, end, read);
            o == Halted || (o == Loaded && s2.cr3 == s1.cr3 && Padded(s1, s2, m, end))
  {
    if end % PAGE == 0 {
      PadZeroAligned(s1, m, end, read);
      SameIsWrite(s1, PadZero(s1, m, end, read).0, m);
    } else {
      PadZeroKeeps(s1, m, end, read);
    }
  }

  /** After that the image is complete up to the page boundary. */
  lemma PadCompletes(s1: Machine, s2: Machine, m: nat, file: File, ph: Phdr)
    requires ph.kind == PT_LOAD && Placed(ph) && 0 < ph.filesz < ph.memsz
    requires m in s1.mms && Padded(s1, s2, m, ph.vaddr + ph.filesz) && HoldsUpTo(s1, m, ph, file, ph.vaddr + ph.filesz)
    requires (ph.vaddr + ph.filesz) % PAGE != 0 ==> FindArea(s1.mms[m].areas, (ph.vaddr + ph.filesz) / PAGE).Some?
    ensures HoldsUpTo(s2, m, ph, file, AlignUp(ph.vaddr + ph.filesz))
  {
    var fileEnd := ph.vaddr + ph.filesz;
    AlignUpFacts(fileEnd);
    if fileEnd % PAGE == 0 {
      WriteNothingHolds(s1, s2, m, ph, file, fileEnd);
    } else {
      TailHolds(s1, s2, m, ph, file, fileEnd / PAGE, fileEnd % PAGE);
    }
  }

  ghost predicate Padded(s: Machine, r: Machine, m: nat, addr: nat) {
    if addr % PAGE == 0 then WriteStep(s, r, m, 0, PAGE) else WriteStep(s, r, m, addr / PAGE, addr % PAGE)
  }

  lemma SameIsWrite(s: Machine, r: Machine, m: nat)
    requires Same(s, r, m)
    ensures WriteStep(s, r, m, 0, PAGE)
  {
  }

  lemma WriteNothingHolds(s: Machine, r: Machine, m: nat, ph: Phdr, file: File, hi: nat)
    requires m in s.mms && WriteStep(s, r, m, 0, PAGE) && HoldsUpTo(s, m, ph, file, hi)
    ensures HoldsUpTo(r, m, ph, file, hi)
  {
    forall p: nat, k: nat | InSegment(ph, hi, p, k) ensures HoldsAt(r, m, ph, file, p, k) {
      assert HoldsAt(s, m, ph, file, p, k);
    }
  }

  /** The page in which an unaligned file part ends is covered by the segment's file area. */
  lemma LastPage(ph: Phdr, file: File)
    requires ph.kind == PT_LOAD && Placed(ph) && 0 < ph.filesz < ph.memsz
    requires !BadOffset(ph.vaddr, Some(file), ph.offset) && (ph.vaddr + ph.filesz) % PAGE != 0
    ensures var p := (ph.vaddr + ph.filesz) / PAGE;
            UserPage(p) && p < PAGES && NewArea(ph.vaddr, ph.filesz, Some(file), ph.offset).Covers(p)
  {
    var last := ph.vaddr + ph.filesz - 1;
    var p := (ph.vaddr + ph.filesz) / PAGE;
    assert last == p * PAGE + ((ph.vaddr + ph.filesz) % PAGE - 1);
    ByteCovered(ph.vaddr, ph.filesz, Some(file), ph.offset, p, (ph.vaddr + ph.filesz) % PAGE - 1);
  }

  /** A file part and its padding: a load step that holds the image up to the next page boundary. */
  lemma FileThenPad(s: Machine, m: nat, file: File, ph: Phdr, luck: Luck, s1: Machine)
    requires Inv(s) && AreasOk(s, m) && Placed(ph) && ph.kind == PT_LOAD && 0 < ph.filesz <= ph.memsz
    requires !BadOffset(ph.vaddr, Some(file), ph.offset)
    requires var a := NewArea(ph.vaddr, ph.filesz, Some(file), ph.offset);
             Insert(s.mms[m].areas, a).Some? && s1 == SetAreas(s, m, Insert(s.mms[m].areas, a).value)
    requires FaultReady(s1, m, luck.read)
    ensures var (s2, o) := PadTail(s1, m, ph, luck);
            && (o == Halted || (o == Loaded && LoadStep(s, s2, m)))
            && (o == Loaded && InFile(ph, file) ==> HoldsUpTo(s2, m, ph, file, PaddedEnd(ph)))
  {
    FilePartHolds(s, m, ph, file);
    if ph.filesz < ph.memsz {
      PadAfterFile(s, m, file, ph, luck, s1);
    }
  }

  lemma PadAfterFile(s: Machine, m: nat, file: File, ph: Phdr, luck: Luck, s1: Machine)
    requires LoadStep(s, s1, m) && Placed(ph) && ph.kind == PT_LOAD && 0 < ph.filesz < ph.memsz
    requires !BadOffset(ph.vaddr, Some(file), ph.offset)
    requires var a := NewArea(ph.vaddr, ph.filesz, Some(file), ph.offset);
             forall p: nat :: p < PAGES && a.Covers(p) && UserPage(p) ==>
               FindArea(s1.mms[m].areas, p).Some? && FindArea(s.mms[m].areas, p) == None
    requires FaultReady(s1, m, luck.read)
    ensures var (s2, o) := PadTail(s1, m, ph, luck);
            && (o == Halted || (o == Loaded && LoadStep(s, s2, m)))
            && (o == Loaded && HoldsUpTo(s1, m, ph, file, ph.vaddr + ph.filesz) ==>
                  HoldsUpTo(s2, m, ph, file, PaddedEnd(ph)))
  {
    LastPageNew(s, m, file, ph, s1);
    PadSteps(s1, m, ph, luck);
    var (s2, o) := PadTail(s1, m, ph, luck);
    if o == Loaded {
      PaddedExtends(s, s1, s2, m, ph.vaddr + ph.filesz);
      PadFinishes(m, file, ph, s1, s2);
    }
  }

  /** The last file page, if the file part does not end on a page boundary, was in no area before. */
  ghost predicate LastNew(s: Machine, s1: Machine, m: nat, end: nat) {
    m in s.mms && m in s1.mms
    && (end % PAGE != 0 ==> FindArea(s1.mms[m].areas, end / PAGE).Some? && FindArea(s.mms[m].areas, end / PAGE) == None)
  }

  lemma LastPageNew(s: Machine, m: nat, file: File, ph: Phdr, s1: Machine)
    requires m in s.mms && m in s1.mms && Placed(ph) && ph.kind == PT_LOAD && 0 < ph.filesz < ph.memsz
    requires !BadOffset(ph.vaddr, Some(file), ph.offset)
    requires var a := NewArea(ph.vaddr, ph.filesz, Some(file), ph.offset);
             forall p: nat :: p < PAGES && a.Covers(p) && UserPage(p) ==>
               FindArea(s1.mms[m].areas, p).Some? && FindArea(s.mms[m].areas, p) == None
    ensures LastNew(s, s1, m, ph.vaddr + ph.filesz)
  {
    if (ph.vaddr + ph.filesz) % PAGE != 0 {
      LastPage(ph, file);
    }
  }

  lemma PadFinishes(m: nat, file: File, ph: Phdr, s1: Machine, s2: Machine)
    requires Placed(ph) && ph.kind == PT_LOAD && 0 < ph.filesz < ph.memsz && m in s1.mms
    requires (ph.vaddr + ph.filesz) % PAGE != 0 ==> FindArea(s1.mms[m].areas, (ph.vaddr + ph.filesz) / PAGE).Some?
    requires Padded(s1, s2, m, ph.vaddr + ph.filesz)
    ensures HoldsUpTo(s1, m, ph, file, ph.vaddr + ph.filesz) ==> HoldsUpTo(s2, m, ph, file, PaddedEnd(ph))
  {
    if HoldsUpTo(s1, m, ph, file, ph.vaddr + ph.filesz) {
      PadCompletes(s1, s2, m, file, ph);
    }
  }

  lemma PaddedExtends(s: Machine, s1: Machine, s2: Machine, m: nat, addr: nat)
    requires LoadStep(s, s1, m) && Padded(s1, s2, m, addr) && s2.cr3 == s1.cr3
    requires addr % PAGE != 0 ==> FindArea(s.mms[m].areas, addr / PAGE) == None
    ensures LoadStep(s, s2, m)
  {
    if addr % PAGE == 0 {
      WriteExtends(s, s1, s2, m, 0, PAGE);
    } else {
      WriteExtends(s, s1, s2, m, addr / PAGE, addr % PAGE);
    }
  }

  /** The anonymous rest of the segment. */
  lemma BrkSteps(s: Machine, s2: Machine, m: nat, ph: Phdr, luck: Luck)
    requires LoadStep(s, s2, m) && ph.kind == PT_LOAD && Placed(ph) && 0 < ph.filesz <= ph.memsz
    ensures var (r, o) := BrkTail(s2, m, ph, luck); o != Halted && LoadStep(s, r, m)
  {
    var a := BrkUnwrapped(s2, m, ph, luck);
    if BrkTail(s2, m, ph, luck).0 != s2 {
      MmapStep(s, s2, m, a);
    }
  }

  lemma BrkCompletes(s: Machine, m: nat, file: File, ph: Phdr, luck: Luck)
    requires Inv(s) && AreasOk(s, m) && ph.kind == PT_LOAD && Placed(ph) && 0 < ph.filesz <= ph.memsz
    requires HoldsUpTo(s, m, ph, file, PaddedEnd(ph)) && BrkTail(s, m, ph, luck).1 == Loaded
    ensures Holds(BrkTail(s, m, ph, luck).0, m, ph, file)
  {
    var a := BrkUnwrapped(s, m, ph, luck);
    var lo, hi := AlignUp(ph.vaddr + ph.filesz), ph.vaddr + ph.memsz;
    if lo < hi {
      ZeroPartHolds(s, m, ph, file, lo);
    } else {
      HoldsLess(s, m, ph, file, hi, PaddedEnd(ph));
    }
  }

  lemma FileSegment(s: Machine, m: nat, file: File, ph: Phdr, luck: Luck)
    requires FaultReady(s, m, luck.read) && Inv(s) && AreasOk(s, m) && Placed(ph)
    requires ph.kind == PT_LOAD && 0 < ph.filesz <= ph.memsz
    ensures var (r, o) := LoadSegment(s, m, file, ph, luck);
            o == Halted || (LoadStep(s, r, m) && (o == Loaded && InFile(ph, file) ==> Holds(r, m, ph, file)))
  {
    LoadStepSelf(s, m);
    var n := DoMmap(s, m, ph.vaddr, ph.filesz, Some(file), ph.offset, luck.mmapOk);
    if n.Some? {
      assert MmOk(s, m) && DirOk(s, s.mms[m].pgd);
      FileThenPad(s, m, file, ph, luck, n.value);
      var (s2, o) := PadTail(n.value, m, ph, luck);
      if o == Loaded {
        BrkSteps(s, s2, m, ph, luck);
        if InFile(ph, file) && BrkTail(s2, m, ph, luck).1 == Loaded {
          BrkCompletes(s2, m, file, ph, luck);
        }
      }
    }
  }

  lemma HoldsLess(s: Machine, m: nat, ph: Phdr, file: File, lo: nat, hi: nat)
    requires m in s.mms && lo <= hi
    ensures HoldsUpTo(s, m, ph, file, hi) ==> HoldsUpTo(s, m, ph, file, lo)
  {
    if HoldsUpTo(s, m, ph, file, hi) {
      forall p: nat, k: nat | InSegment(ph, lo, p, k) ensures HoldsAt(s, m, ph, file, p, k) {
        assert InSegment(ph, hi, p, k);
      }
    }
  }

  lemma MmapStep(s: Machine, s2: Machine, m: nat, a: Area)
    requires LoadStep(s, s2, m) && WellFormed(a) && Insert(s2.mms[m].areas, a).Some?
    ensures LoadStep(s, SetAreas(s2, m, Insert(s2.mms[m].areas, a).value), m)
  {
    MmapKeeps(s2, m, a);
    LoadStepTrans(s, s2, SetAreas(s2, m, Insert(s2.mms[m].areas, a).value), m);
  }

  /** Loading one segment: unless the machine halts, only this address space changes, nothing it already
      held is disturbed, and on success it holds the image of the segment. */
  lemma SegmentLoads(s: Machine, m: nat, file: File, ph: Phdr, luck: Luck)
    requires FaultReady(s, m, luck.read) && Inv(s) && AreasOk(s, m) && Placed(ph)
    ensures var (r, o) := LoadSegment(s, m, file, ph, luck);
            o == Halted || (LoadStep(s, r, m) && (o == Loaded && InFile(ph, file) ==> Holds(r, m, ph, file)))
  {
    LoadStepSelf(s, m);
    if ph.kind == PT_LOAD && ph.memsz >= ph.filesz {
      if ph.filesz == 0 {
        ZeroSegment(s, m, file, ph, luck);
      } else {
        FileSegment(s, m, file, ph, luck);
      }
    }
  }

  ghost predicate AllPlaced(phs: seq<Phdr>) {
    forall i :: 0 <= i < |phs| ==> Placed(phs[i])
  }

  ghost predicate AllInFile(phs: seq<Phdr>, file: File) {
    forall i :: 0 <= i < |phs| ==> InFile(phs[i], file)
  }

  ghost predicate HoldsAll(s: Machine, m: nat, phs: seq<Phdr>, file: File) {
    forall i :: 0 <= i < |phs| ==> Holds(s, m, phs[i], file)
  }

  /** elf32_load_exec: unless the machine halts, only this address space changes, and on success it holds
      the whole image. */
  lemma {:induction false} LoadsImage(s: Machine, m: nat, file: File, phs: seq<Phdr>, lucks: seq<Luck>)
    requires |phs| == |lucks| && LucksOk(lucks) && Inv(s) && AreasOk(s, m) && AllPlaced(phs)
    ensures s.mms[m].pgd < DIRS
    ensures var (r, o) := LoadSegments(s, m, file, phs, lucks);
            o == Halted || (LoadStep(s, r, m) && (o == Loaded && AllInFile(phs, file) ==> HoldsAll(r, m, phs, file)))
    decreases |phs|
  {
    assert MmOk(s, m) && DirOk(s, s.mms[m].pgd);
    LoadStepSelf(s, m);
    if phs != [] {
      SegmentLoads(s, m, file, phs[0], lucks[0]);
      var (r, o) := LoadSegment(s, m, file, phs[0], lucks[0]);
      if o == Loaded {
        assert MmOk(r, m) && DirOk(r, r.mms[m].pgd);
        forall i | 0 <= i < |phs| - 1 ensures Placed(phs[1..][i]) { assert Placed(phs[i + 1]); }
        LoadsImage(r, m, file, phs[1..], lucks[1..]);
        var (q, o2) := LoadSegments(r, m, file, phs[1..], lucks[1..]);
        if o2 != Halted {
          LoadStepTrans(s, r, q, m);
          if o2 == Loaded && AllInFile(phs, file) {
            CollectImage(r, q, m, phs, file);
          }
        }
      }
    }
  }

  lemma CollectImage(r: Machine, q: Machine, m: nat, phs: seq<Phdr>, file: File)
    requires phs != [] && LoadStep(r, q, m) && AllInFile(phs, file)
    requires InFile(phs[0], file) ==> Holds(r, m, phs[0], file)
    requires AllInFile(phs[1..], file) ==> HoldsAll(q, m, phs[1..], file)
    ensures HoldsAll(q, m, phs, file)
  {
    forall i | 0 <= i < |phs| - 1 ensures InFile(phs[1..][i], file) { assert InFile(phs[i + 1], file); }
    forall i | 0 <= i < |phs| ensures Holds(q, m, phs[i], file) {
      assert InFile(phs[i], file);
      if i > 0 {
        assert Holds(q, m, phs[1..][i - 1], file);
      } else if phs[0].kind == PT_LOAD {
        StillHolds(r, q, m, phs[0], file, phs[0].vaddr + phs[0].memsz);
      }
    }
  }
}
