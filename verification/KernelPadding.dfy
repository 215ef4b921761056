/** padzero writes wherever the program header says, kernel addresses included: when that changes the memory of other
    tasks. */
module KernelPadding {
  import opened Words
  import opened Vm
  import opened VmProofs
  import opened VmOwnership
  import opened MmapSpec
  import opened Elf
  import opened Loading
  import opened KernelStores

  /** What every other address space holds is as before. */
  ghost predicate OthersKept(s: Machine, r: Machine, m: nat) {
    forall u :: u in s.mms && u != m ==> u in r.mms && SameBytes(s, r, u)
  }

  ghost predicate AllKept(s: Machine, r: Machine) {
    Inv(r) && r.mms.Keys == s.mms.Keys && forall u :: u in s.mms ==> SameBytes(s, r, u)
  }

  /** Steps that change no byte of anybody before and after do not matter. */
  lemma KeptBetween(s: Machine, s1: Machine, s2: Machine, r: Machine, m: nat)
    requires AllKept(s, s1) && s2.mms.Keys == s1.mms.Keys && AllKept(s2, r)
    ensures OthersKept(s, r, m) <==> OthersKept(s1, s2, m)
  {
    forall u | u in s.mms && u != m ensures SameBytes(s, r, u) <==> SameBytes(s1, s2, u) {
      BytesBetween(s, s1, s2, r, u);
    }
  }

  lemma BytesBetween(s: Machine, s1: Machine, s2: Machine, r: Machine, u: nat)
    requires u in s.mms && u in s1.mms && u in s2.mms && u in r.mms && SameBytes(s, s1, u) && SameBytes(s2, r, u)
    ensures SameBytes(s, r, u) <==> SameBytes(s1, s2, u)
  {
    forall p: nat, k: nat | p < PAGES && k < PAGE
      ensures ByteAt(r, u, p, k) == ByteAt(s, u, p, k) <==> ByteAt(s2, u, p, k) == ByteAt(s1, u, p, k)
    {
      assert ByteAt(s1, u, p, k) == ByteAt(s, u, p, k) && ByteAt(r, u, p, k) == ByteAt(s2, u, p, k);
    }
  }

  /** Frame f holds zeros from offset k on. */
  predicate ZerosFrom(s: Machine, f: nat, k: nat) {
    forall j: nat :: k <= j < PAGE ==> RamAt(s, f, j) == Some(0)
  }

  /** Zeroing to the end of page p leaves the others alone. */
  predicate PadsQuietly(s: Machine, m: nat, p: nat, k: nat) {
    !KernelPage(p) || ZerosFrom(s, Pti(p), k) || s.mms.Keys == {m}
  }

  lemma QuietSame(s: Machine, r: Machine, m: nat, p: nat, k: nat)
    requires r.ram == s.ram && r.mms.Keys == s.mms.Keys
    ensures PadsQuietly(r, m, p, k) <==> PadsQuietly(s, m, p, k)
  {
    assert forall j: nat :: RamAt(r, Pti(p), j) == RamAt(s, Pti(p), j);
  }

  lemma KernelWalk(s: Machine, u: nat, p: nat)
    requires Inv(s) && u in s.mms && KernelPage(p)
    ensures Walk(s, Pool(s.mms[u].pgd), p) == Some(Pti(p)) && Pti(p) < KERNEL_FRAMES
  {
    assert MmOk(s, u) && KernelOk(s, s.mms[u].pgd, Pdi(p));
  }

  lemma ZeroKernelPage(s: Machine, m: nat, p: nat, from: nat)
    requires Inv(s) && m in s.mms && s.cr3 == Pool(s.mms[m].pgd) && KernelPage(p) && p < PAGES && from <= PAGE
    ensures Pti(p) < FRAMES
    ensures var r := ZeroTail(s, Pti(p), from).(tlb := s.tlb[p := Pti(p)]);
            && Inv(r) && r.mms == s.mms && r.cr3 == s.cr3
            && forall u: nat, q: nat, k: nat :: u in s.mms && q < PAGES && k < PAGE ==>
                 ByteAt(r, u, q, k) == if KernelPage(q) && Pti(q) == Pti(p) && from <= k then Some(0)
                                       else ByteAt(s, u, q, k)
  {
    var f := Pti(p);
    KernelWalk(s, m, p);
    var r := ZeroTail(s, f, from).(tlb := s.tlb[p := f]);
    SameOwnership(s, r);
    forall q ensures TlbOk(r, q) { assert TlbOk(s, q); }
    forall u: nat, q: nat, k: nat | u in s.mms && q < PAGES && k < PAGE
      ensures ByteAt(r, u, q, k) == if KernelPage(q) && Pti(q) == f && from <= k then Some(0) else ByteAt(s, u, q, k)
    {
      if KernelPage(q) { KernelWalk(s, u, q); }
      if Walk(s, Pool(s.mms[u].pgd), q).Some? { WalkIntoKernel(s, u, q); }
    }
  }

  lemma ZeroKernelExact(s: Machine, m: nat, p: nat, from: nat)
    requires Inv(s) && m in s.mms && s.cr3 == Pool(s.mms[m].pgd) && KernelPage(p) && p < PAGES && from <= PAGE
    ensures Pti(p) < FRAMES
    ensures var r := ZeroTail(s, Pti(p), from).(tlb := s.tlb[p := Pti(p)]);
            OthersKept(s, r, m) <==> PadsQuietly(s, m, p, from)
  {
    ZeroKernelPage(s, m, p, from);
    var r := ZeroTail(s, Pti(p), from).(tlb := s.tlb[p := Pti(p)]);
    forall u: nat, q: nat, k: nat | u in s.mms && KernelPage(q) && Pti(q) == Pti(p) && k < PAGE
      ensures ByteAt(s, u, q, k) == RamAt(s, Pti(p), k)
    {
      KernelWalk(s, u, q);
    }
    if OthersKept(s, r, m) && s.mms.Keys != {m} {
      var u: nat :| u in s.mms && u != m;
      assert SameBytes(s, r, u);
      forall k: nat | from <= k < PAGE ensures RamAt(s, Pti(p), k) == Some(0) {
        assert ByteAt(r, u, p, k) == ByteAt(s, u, p, k);
      }
    }
  }

  lemma ZeroUserPage(s: Machine, m: nat, p: nat, from: nat)
    requires Inv(s) && m in s.mms && s.cr3 == Pool(s.mms[m].pgd) && !KernelPage(p) && p < PAGES && from <= PAGE
    requires Walk(s, s.cr3, p).Some?
    ensures var f := Walk(s, s.cr3, p).value;
            f < FRAMES && var r := ZeroTail(s, f, from).(tlb := s.tlb[p := f]);
            Inv(r) && r.mms == s.mms && r.cr3 == s.cr3 && OthersKept(s, r, m)
  {
    UserPageWalk(s, m, p);
    var f := Walk(s, s.cr3, p).value;
    assert Maps(s, m, p, f);
    ZeroTailKeeps(s, m, p, f, from);
    var r := ZeroTail(s, f, from).(tlb := s.tlb[p := f]);
    forall u | u in s.mms && u != m ensures SameBytes(s, r, u) { assert Undisturbed(s, r, u); }
  }

  /** The page fault on the way changes nobody's bytes. */
  lemma ZeroPageExact(s: Machine, m: nat, p: nat, from: nat, read: Read)
    requires FaultReady(s, m, read) && Inv(s) && s.cr3 == Pool(s.mms[m].pgd) && p < PAGES && from <= PAGE
    ensures var (r, o) := ZeroPage(s, m, p, from, read);
            o == Loaded ==>
              Inv(r) && r.mms == s.mms && r.cr3 == s.cr3 && (OthersKept(s, r, m) <==> PadsQuietly(s, m, p, from))
  {
    if KernelPage(p) {
      KernelWalk(s, m, p);
      ZeroKernelPage(s, m, p, from);
      ZeroKernelExact(s, m, p, from);
    } else if Walk(s, s.cr3, p) == None {
      FaultKeeps(s, m, p, read);
      var (q, fault) := PageFault(s, m, p, read);
      if fault == Resolved {
        ZeroUserPage(q, m, p, from);
        var f := Walk(q, q.cr3, p).value;
        var r := ZeroTail(q, f, from).(tlb := q.tlb[p := f]);
        KeptBetween(s, q, r, r, m);
      }
    } else {
      ZeroUserPage(s, m, p, from);
    }
  }

  /** padzero of any address leaves what the others hold exactly when the tail it zeroes is not in a kernel page, or
      was zero already, or there are no others. */
  lemma PadZeroExact(s: Machine, m: nat, addr: nat, read: Read)
    requires FaultReady(s, m, read) && Inv(s) && addr < WORD
    ensures var (r, o) := PadZero(s, m, addr, read);
            o == Loaded ==>
              Inv(r) && r.mms == s.mms
              && (OthersKept(s, r, m) <==> addr % PAGE == 0 || PadsQuietly(s, m, addr / PAGE, addr % PAGE))
  {
    MmLive(s, m);
    assert AlignUp(addr) == addr <==> addr % PAGE == 0;
    var s1 := Switched(s, m);
    SetCr3Keeps(s, Pool(s.mms[m].pgd));
    if addr % PAGE == 0 {
      BackAgain(s, s1, m);
    } else {
      ZeroPageExact(s1, m, addr / PAGE, addr % PAGE, read);
      var (s2, o) := ZeroPage(s1, m, addr / PAGE, addr % PAGE, read);
      if o == Loaded {
        BackAgain(s, s2, m);
        QuietSame(s, s1, m, addr / PAGE, addr % PAGE);
      }
    }
  }

  lemma MmLive(s: Machine, m: nat)
    requires Inv(s) && m in s.mms
    ensures DirLive(s, Pool(s.mms[m].pgd))
  {
    assert MmOk(s, m);
  }

  /** s with the directory of m loaded. */
  function Switched(s: Machine, m: nat): Machine
    requires m in s.mms
  {
    if s.cr3 != Pool(s.mms[m].pgd) then SetCr3(s, Pool(s.mms[m].pgd)) else s
  }

  lemma BackAgain(s: Machine, s2: Machine, m: nat)
    requires Inv(s) && m in s.mms && Inv(s2) && s2.mms == s.mms
    ensures var r := if s.cr3 != Pool(s.mms[m].pgd) then SetCr3(s2, s.cr3) else s2;
            Inv(r) && r.mms == s.mms && (OthersKept(s, r, m) <==> OthersKept(Switched(s, m), s2, m))
  {
    MmLive(s, m);
    StaysLive(s, s2, s.cr3);
    SetCr3Keeps(s, Pool(s.mms[m].pgd));
    SetCr3Keeps(s2, s.cr3);
    KeptBetween(s, Switched(s, m), s2, if s.cr3 != Pool(s.mms[m].pgd) then SetCr3(s2, s.cr3) else s2, m);
  }

  // ----- one segment

  function TailStart(ph: Phdr): (a: nat)
    ensures a < WORD
  {
    (ph.vaddr + ph.filesz) % WORD
  }

  /** The tail that a segment zeroes behind its file part does not change the kernel's memory. */
  predicate TailQuiet(s: Machine, m: nat, ph: Phdr) {
    var end := TailStart(ph);
    ph.kind == PT_LOAD && 0 < ph.filesz < ph.memsz && end % PAGE != 0 ==> PadsQuietly(s, m, end / PAGE, end % PAGE)
  }

  lemma AreasKept(s: Machine, m: nat, vs: seq<Area>)
    requires Inv(s) && m in s.mms
    ensures Inv(SetAreas(s, m, vs)) && OthersKept(s, SetAreas(s, m, vs), m) && OthersKept(SetAreas(s, m, vs), s, m)
  {
    var r := SetAreas(s, m, vs);
    SameOwnership(s, r);
    forall q ensures TlbOk(r, q) { assert TlbOk(s, q); }
  }

  lemma KeptTrans(s: Machine, r: Machine, q: Machine, m: nat)
    requires OthersKept(s, r, m) && OthersKept(r, q, m) && r.mms.Keys == s.mms.Keys
    ensures OthersKept(s, q, m)
  {
    forall u | u in s.mms && u != m ensures SameBytes(s, q, u) { assert SameBytes(s, r, u) && SameBytes(r, q, u); }
  }

  lemma TailExact(s: Machine, m: nat, ph: Phdr, luck: Luck)
    requires FaultReady(s, m, luck.read) && Inv(s) && ph.kind == PT_LOAD && 0 < ph.filesz
    ensures var (r, o) := PadTail(s, m, ph, luck);
            o == Loaded ==> Inv(r) && r.mms == s.mms && (OthersKept(s, r, m) <==> TailQuiet(s, m, ph))
  {
    if ph.memsz > ph.filesz {
      var end := TailStart(ph);
      PadZeroExact(s, m, end, luck.read);
      assert PadTail(s, m, ph, luck) == PadZero(s, m, end, luck.read);
      assert TailQuiet(s, m, ph) <==> end % PAGE == 0 || PadsQuietly(s, m, end / PAGE, end % PAGE);
    } else {
      NobodyTouched(s, m);
    }
  }

  lemma NobodyTouched(s: Machine, m: nat)
    ensures OthersKept(s, s, m)
  {
  }

  /** r is s, or s with other areas for m. */
  ghost predicate OnlyAreas(s: Machine, r: Machine, m: nat) {
    m in s.mms && (r == s || exists vs :: r == SetAreas(s, m, vs))
  }

  lemma OnlyAreasKept(s: Machine, r: Machine, m: nat)
    requires Inv(s) && OnlyAreas(s, r, m)
    ensures Inv(r) && r.mms.Keys == s.mms.Keys && OthersKept(s, r, m) && OthersKept(r, s, m)
  {
    if r == s {
      NobodyTouched(s, m);
    } else {
      var vs :| r == SetAreas(s, m, vs);
      AreasKept(s, m, vs);
    }
  }

  lemma BrkAreasOnly(s: Machine, m: nat, ph: Phdr, luck: Luck)
    requires m in s.mms
    ensures OnlyAreas(s, BrkTail(s, m, ph, luck).0, m)
  {
  }

  lemma FileSegmentSteps(s: Machine, m: nat, file: File, ph: Phdr, luck: Luck) returns (s1: Machine, s2: Machine)
    requires FaultReady(s, m, luck.read) && ph.kind == PT_LOAD && 0 < ph.filesz
    requires LoadSegment(s, m, file, ph, luck).1 == Loaded
    ensures OnlyAreas(s, s1, m) && s1.ram == s.ram && FaultReady(s1, m, luck.read)
    ensures PadTail(s1, m, ph, luck) == (s2, Loaded)
    ensures OnlyAreas(s2, LoadSegment(s, m, file, ph, luck).0, m)
  {
    s1 := DoMmap(s, m, ph.vaddr, ph.filesz, Some(file), ph.offset, luck.mmapOk).value;
    s2 := PadTail(s1, m, ph, luck).0;
    BrkAreasOnly(s2, m, ph, luck);
  }

  lemma TailQuietSame(s: Machine, r: Machine, m: nat, ph: Phdr)
    requires r.ram == s.ram && r.mms.Keys == s.mms.Keys
    ensures TailQuiet(r, m, ph) <==> TailQuiet(s, m, ph)
  {
    var end := TailStart(ph);
    QuietSame(s, r, m, end / PAGE, end % PAGE);
  }

  lemma FileSegmentExact(s: Machine, m: nat, file: File, ph: Phdr, luck: Luck)
    requires FaultReady(s, m, luck.read) && Inv(s) && ph.kind == PT_LOAD && 0 < ph.filesz
    requires LoadSegment(s, m, file, ph, luck).1 == Loaded
    ensures var r := LoadSegment(s, m, file, ph, luck).0;
            Inv(r) && r.mms.Keys == s.mms.Keys && (OthersKept(s, r, m) <==> TailQuiet(s, m, ph))
  {
    var s1, s2 := FileSegmentSteps(s, m, file, ph, luck);
    var r := LoadSegment(s, m, file, ph, luck).0;
    OnlyAreasKept(s, s1, m);
    TailExact(s1, m, ph, luck);
    OnlyAreasKept(s2, r, m);
    Around(s, s1, s2, r, m);
    TailQuietSame(s, s1, m, ph);
  }

  /** Loading any segment, wherever its header wants it, leaves what the other address spaces hold exactly when its
      tail is quiet. */
  lemma SegmentExact(s: Machine, m: nat, file: File, ph: Phdr, luck: Luck)
    requires FaultReady(s, m, luck.read) && Inv(s)
    ensures var (r, o) := LoadSegment(s, m, file, ph, luck);
            o == Loaded ==> Inv(r) && r.mms.Keys == s.mms.Keys && (OthersKept(s, r, m) <==> TailQuiet(s, m, ph))
  {
    var (r, o) := LoadSegment(s, m, file, ph, luck);
    if o == Loaded {
      if ph.kind == PT_LOAD && 0 < ph.filesz {
        FileSegmentExact(s, m, file, ph, luck);
      } else {
        assert OnlyAreas(s, r, m);
        OnlyAreasKept(s, r, m);
      }
    }
  }

  lemma Around(s: Machine, s1: Machine, s2: Machine, r: Machine, m: nat)
    requires s1.mms.Keys == s.mms.Keys && s2.mms.Keys == s.mms.Keys && r.mms.Keys == s.mms.Keys
    requires OthersKept(s, s1, m) && OthersKept(s1, s, m) && OthersKept(s2, r, m) && OthersKept(r, s2, m)
    ensures OthersKept(s, r, m) <==> OthersKept(s1, s2, m)
  {
    if OthersKept(s, r, m) {
      KeptTrans(s1, s, r, m);
      KeptTrans(s1, r, s2, m);
    }
    if OthersKept(s1, s2, m) {
      KeptTrans(s, s1, s2, m);
      KeptTrans(s, s2, r, m);
    }
  }
}
