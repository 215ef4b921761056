/** The memory code as the kernel runs it, on its bitmaps, pools and registers, against the operations on
    machine values. */
module Kernel {
  import opened Words
  import opened Vm
  import opened VmProofs
  import opened MmapSpec
  import opened Elf
  import opened Loading

  class Memory {
    const frameInUse: array<bool>
    const pdInUse: array<bool>
    const ptInUse: array<bool>
    var pdPool: seq<seq<Pde>>
    var ptPool: seq<seq<Pte>>
    var ram: seq<seq<Byte>>
    var cr3: Dir
    var tlb: map<nat, nat>
    var mms: map<nat, Mm>
    ghost var own: Owners

    ghost function Abs(): Machine
      reads this, frameInUse, pdInUse, ptInUse
    {
      Machine(frameInUse[..], pdInUse[..], pdPool, ptInUse[..], ptPool, ram, cr3, tlb, mms, own)
    }

    ghost predicate Valid()
      reads this, frameInUse, pdInUse, ptInUse
    {
      && frameInUse != pdInUse && frameInUse != ptInUse && pdInUse != ptInUse
      && Shape(Abs())
    }

    // ----- allocators

    /** alloc_phys_frame, giving the frame number. */
    method AllocPhysFrame() returns (f: Option<nat>)
      requires Valid()
      modifies frameInUse
      ensures Valid()
      ensures var i := FirstFree(old(frameInUse[..]));
              if i == FRAMES then f == None && frameInUse[..] == old(frameInUse[..])
              else f == Some(i) && frameInUse[..] == old(frameInUse[..])[i := true]
    {
      for i := 0 to FRAMES
        invariant FirstFree(frameInUse[..]) == i + FirstFree(frameInUse[i..])
        invariant frameInUse[..] == old(frameInUse[..])
      {
        assert frameInUse[i..][1..] == frameInUse[i + 1..];
        if !frameInUse[i] {
          frameInUse[i] := true;
          return Some(i);
        }
      }
      return None;
    }

    /** free_phys_frame: refuses the kernel's frames. */
    method FreePhysFrame(f: nat) returns (ok: bool)
      requires Valid() && f < FRAMES
      modifies frameInUse
      ensures Valid() && ok == (f >= KERNEL_FRAMES)
      ensures frameInUse[..] == if ok then old(frameInUse[..])[f := false] else old(frameInUse[..])
    {
      if f < KERNEL_FRAMES {
        return false;
      }
      frameInUse[f] := false;
      return true;
    }

    /** alloc_pt: the first unused table, zeroed. */
    method AllocPt() returns (t: Option<nat>)
      requires Valid()
      modifies ptInUse, this`ptPool
      ensures Valid()
      ensures var i := FirstFree(old(ptInUse[..]));
              if i == TABLES then t == None && ptInUse[..] == old(ptInUse[..]) && ptPool == old(ptPool)
              else
                t == Some(i) && ptInUse[..] == old(ptInUse[..])[i := true] && ptPool == old(ptPool)[i := EmptyTable()]
    {
      for i := 0 to TABLES
        invariant FirstFree(ptInUse[..]) == i + FirstFree(ptInUse[i..])
        invariant ptInUse[..] == old(ptInUse[..]) && ptPool == old(ptPool)
      {
        assert ptInUse[i..][1..] == ptInUse[i + 1..];
        if !ptInUse[i] {
          ptInUse[i] := true;
          ptPool := ptPool[i := EmptyTable()];
          return Some(i);
        }
      }
      return None;
    }

    /** alloc_pd: the first unused directory, zeroed. */
    method AllocPd() returns (d: Option<nat>)
      requires Valid()
      modifies pdInUse, this`pdPool
      ensures Valid()
      ensures var i := FirstFree(old(pdInUse[..]));
              if i == DIRS then d == None && pdInUse[..] == old(pdInUse[..]) && pdPool == old(pdPool)
              else
                && d == Some(i) && pdInUse[..] == old(pdInUse[..])[i := true]
                && pdPool == old(pdPool)[i := seq(ENTRIES, k => NoTable)]
    {
      for i := 0 to DIRS
        invariant FirstFree(pdInUse[..]) == i + FirstFree(pdInUse[i..])
        invariant pdInUse[..] == old(pdInUse[..]) && pdPool == old(pdPool)
      {
        assert pdInUse[i..][1..] == pdInUse[i + 1..];
        if !pdInUse[i] {
          pdInUse[i] := true;
          pdPool := pdPool[i := seq(ENTRIES, k => NoTable)];
          return Some(i);
        }
      }
      return None;
    }

    // ----- translation

    /** set_cr3. */
    method LoadCr3(d: Dir)
      modifies this`cr3, this`tlb
      ensures Abs() == SetCr3(old(Abs()), d)
    {
      cr3, tlb := d, map[];
    }

    /** map_page on a directory whose entry for the page is a pool table. */
    method MapPage(d: nat, p: nat, f: nat)
      requires Valid() && d < DIRS && p < PAGES && pdPool[d][Pdi(p)].UserTable? && pdPool[d][Pdi(p)].table < TABLES
      modifies this`ptPool, this`tlb
      ensures Valid()
      ensures var t := pdPool[d][Pdi(p)].table; ptPool == old(ptPool)[t := old(ptPool)[t][Pti(p) := Page(f)]]
      ensures tlb == if cr3 == Pool(d) then old(tlb) - {p} else old(tlb)
    {
      var t := pdPool[d][Pdi(p)].table;
      ptPool := ptPool[t := ptPool[t][Pti(p) := Page(f)]];
      if cr3 == Pool(d) {
        tlb := tlb - {p};
      }
    }

    /** unmap_page: refuses a page whose directory entry is absent. */
    method UnmapPage(d: nat, p: nat) returns (ok: bool)
      requires Valid() && d < DIRS && p < PAGES && !pdPool[d][Pdi(p)].KernelTable?
      requires pdPool[d][Pdi(p)].UserTable? ==> pdPool[d][Pdi(p)].table < TABLES
      modifies this`ptPool, this`tlb
      ensures Valid() && ok == pdPool[d][Pdi(p)].UserTable?
      ensures !ok ==> ptPool == old(ptPool) && tlb == old(tlb)
      ensures ok ==> var t := pdPool[d][Pdi(p)].table; ptPool == old(ptPool)[t := old(ptPool)[t][Pti(p) := NoPage]]
      ensures ok ==> tlb == if cr3 == Pool(d) then old(tlb) - {p} else old(tlb)
    {
      if pdPool[d][Pdi(p)].NoTable? {
        return false;
      }
      var t := pdPool[d][Pdi(p)].table;
      ptPool := ptPool[t := ptPool[t][Pti(p) := NoPage]];
      if cr3 == Pool(d) {
        tlb := tlb - {p};
      }
      return true;
    }

    /** The processor's page walk. */
    method PageWalk(d: Dir, p: nat) returns (f: Option<nat>)
      requires Valid() && p < PAGES && (d.Pool? ==> d.slot < DIRS)
      ensures f == Walk(Abs(), d, p)
    {
      var e :=
        match d
        case Boot => if KernelSlot(Pdi(p)) then KernelTable else NoTable
        case Pool(k) => pdPool[k][Pdi(p)];
      match e
      case NoTable => return None;
      case KernelTable => return Some(Pti(p));
      case UserTable(t) =>
        if t < TABLES && ptPool[t][Pti(p)].Page? {
          return Some(ptPool[t][Pti(p)].frame);
        }
        return None;
    }

    /** A kernel write of a whole page through its virtual address, which the TLB then caches. */
    method WritePage(p: nat, content: seq<Byte>)
      requires Valid() && p < PAGES && |content| == PAGE && p !in tlb && (cr3.Pool? ==> cr3.slot < DIRS)
      requires Walk(Abs(), cr3, p).Some? && Walk(Abs(), cr3, p).value < FRAMES
      modifies this`ram, this`tlb
      ensures Valid()
      ensures var f := Walk(old(Abs()), cr3, p).value; ram == old(ram)[f := content] && tlb == old(tlb)[p := f]
    {
      var f := PageWalk(cr3, p);
      ram := ram[f.value := content];
      tlb := tlb[p := f.value];
    }

    // ----- the page fault handler

    method FindArea(m: nat, p: nat) returns (v: Option<Area>)
      requires m in mms
      ensures v == Vm.FindArea(mms[m].areas, p)
    {
      var vs := mms[m].areas;
      for i := 0 to |vs|
        invariant Vm.FindArea(vs, p) == Vm.FindArea(vs[i..], p)
      {
        assert vs[i..][1..] == vs[i + 1..];
        if vs[i].start <= p * PAGE < vs[i].end {
          return Some(vs[i]);
        }
      }
      return None;
    }

    /** The bytes that memset and a complete read put into the page. */
    method FileBytes(v: Area, p: nat) returns (page: seq<Byte>)
      requires v.Covers(p)
      ensures page == FillPage(v, p)
    {
      page := seq(PAGE, k => 0);
      if v.file.Some? {
        var from := (v.offset + (p * PAGE - v.start)) % WORD;
        var c := v.file.value.content;
        if from < |c| {
          var n := if |c| - from < PAGE then |c| - from else PAGE;
          page := c[from..from + n] + page[n..];
        }
      }
      assert forall k :: 0 <= k < PAGE ==> page[k] == FillByte(v, p, k);
    }

    /** The page table for the faulting page, allocated when its directory entry is absent. */
    method TableFor(d: nat, i: nat) returns (ok: bool)
      requires Valid() && d < DIRS && i < ENTRIES && !pdPool[d][i].KernelTable?
      modifies ptInUse, this`ptPool, this`pdPool, this`own
      ensures Valid() && Abs() == EnsureTable(old(Abs()), d, i) && ok == pdPool[d][i].UserTable?
    {
      if pdPool[d][i].NoTable? {
        var t := AllocPt();
        if t == None {
          return false;
        }
        pdPool := pdPool[d := pdPool[d][i := UserTable(t.value)]];
        own := own.(table := own.table[t.value := Slot(d, i)]);
      }
      return true;
    }

    /** The rest of the handler once frame f is taken and the table exists: map, fill, and on a failed read
        unmap and give the frame back. s is the state but for the frame being taken. */
    method BringIn(d: nat, p: nat, f: nat, v: Area, read: Read, ghost s: Machine) returns (o: Fault)
      requires Valid() && d < DIRS && p < PAGES && f < FRAMES && |s.frameUse| == FRAMES
      requires Abs() == s.(frameUse := s.frameUse[f := true])
      requires pdPool[d][Pdi(p)].UserTable? && CanMap(s, d, pdPool[d][Pdi(p)].table, p, f)
      requires cr3 == Pool(d) && p !in tlb && v.Covers(p) && (read.ReadFailed? ==> |read.left| == PAGE)
      modifies this, frameInUse
      ensures Valid() && mms == old(mms)
      ensures (Abs(), o) == if read.ReadFailed? then (Unread(s, p, f, read.left), Panic)
                            else (AddPage(s, old(pdPool)[d][Pdi(p)].table, p, f, FillPage(v, p)), Resolved)
    {
      ghost var t := pdPool[d][Pdi(p)].table;
      assert s.frameUse[f := true][f := false] == s.frameUse;
      MapPage(d, p, f);
      assert tlb == s.tlb;
      if read.ReadFailed? {
        WritePage(p, read.left);
        var gone := UnmapPage(d, p);
        var freed := FreePhysFrame(f);
        assert s.tables[t][Pti(p) := Page(f)][Pti(p) := NoPage] == s.tables[t];
        assert ptPool == s.tables && tlb == s.tlb - {p} && frameInUse[..] == s.frameUse;
        return Panic;
      }
      var page := FileBytes(v, p);
      WritePage(p, page);
      own := own.(frame := own.frame[f := Slot(t, Pti(p))]);
      return Resolved;
    }

    /** page_fault_handler: a fault without an address space, and a fault on a present page, are panics; any
        other is resolved if it can be. */
    method HandlePageFault(mm: Option<nat>, protection: bool, p: nat, read: Read) returns (o: Fault)
      requires Valid() && (mm.Some? && !protection ==> MayFault(Abs(), mm.value, p, read))
      modifies this, frameInUse, ptInUse
      ensures Valid() && mms == old(mms)
      ensures mm == None || protection ==> o == Panic && Abs() == old(Abs())
      ensures mm.Some? && !protection ==>
                mms[mm.value].pgd < DIRS && (Abs(), o) == PageFault(old(Abs()), mm.value, p, read)
    {
      if mm == None || protection {
        return Panic;
      }
      o := ResolveFault(mm.value, p, read);
    }

    /** page_fault_handler for a fault of the current address space m on an absent page. */
    method ResolveFault(m: nat, p: nat, read: Read) returns (o: Fault)
      requires Valid() && MayFault(Abs(), m, p, read)
      modifies this, frameInUse, ptInUse
      ensures Valid() && mms == old(mms) && mms[m].pgd < DIRS
      ensures (Abs(), o) == PageFault(old(Abs()), m, p, read)
    {
      ghost var s := Abs();
      var d := mms[m].pgd;
      FaultTable(s, m, p, read);
      var v := FindArea(m, p);
      if v == None {
        return Panic;
      }
      var frame := AllocPhysFrame();
      if frame == None {
        return Panic;
      }
      var f := frame.value;
      assert s.frameUse[f := true][f := false] == s.frameUse;
      var ok := TableFor(d, Pdi(p));
      ghost var s1 := EnsureTable(s, d, Pdi(p));
      assert Abs() == s1.(frameUse := s.frameUse[f := true]);
      if !ok {
        var freed := FreePhysFrame(f);
        assert Abs() == s1;
        return Panic;
      }
      o := BringIn(d, p, f, v.value, read, s1);
    }

    // ----- address spaces

    /** copy_kernel_mappings: present supervisor entries only. */
    method CopyKernelMappings(dst: nat, src: Dir)
      requires Valid() && dst < DIRS && (src.Pool? ==> src.slot < DIRS && src.slot != dst)
      requires pdPool[dst] == seq(ENTRIES, k => NoTable)
      modifies this`pdPool
      ensures Valid() && pdPool == old(pdPool)[dst := KernelPart(old(Abs()), src)]
    {
      ghost var s := Abs();
      for i := 0 to ENTRIES
        invariant Valid() && |pdPool[dst]| == ENTRIES && pdPool == s.dirs[dst := pdPool[dst]]
        invariant forall k :: 0 <= k < ENTRIES ==>
                    pdPool[dst][k] == if k < i && PdeOf(s, src, k) == KernelTable then KernelTable else NoTable
      {
        var pde := match src case Boot => (if KernelSlot(i) then KernelTable else NoTable) case Pool(k) => pdPool[k][i];
        if pde.KernelTable? {
          pdPool := pdPool[dst := pdPool[dst][i := pde]];
        }
      }
      assert pdPool[dst] == KernelPart(s, src);
    }

    /** create_task_mm. */
    method CreateTaskMm(m: nat) returns (ok: bool)
      requires Valid() && Inv(Abs()) && m !in mms
      modifies this, pdInUse
      ensures Valid() && (Abs(), ok) == CreateMm(old(Abs()), m)
    {
      ghost var s := Abs();
      var d := AllocPd();
      if d == None {
        return false;
      }
      assert DirOk(s, d.value);
      if cr3.Pool? { assert DirOk(s, cr3.slot); }
      SameKernelPart(s, Abs(), cr3);
      CopyKernelMappings(d.value, cr3);
      mms := mms[m := Mm(d.value, [])];
      own := own.(dir := own.dir[d.value := m]);
      assert Abs() == CreateMm(s, m).0;
      return true;
    }

    /** The inner loop of release_mm: gives back the frames of the table in slot i of directory d. */
    method FreeTableFrames(t: nat, ghost s: Machine, ghost d: nat, ghost i: nat)
      requires Valid() && t < TABLES && i < ENTRIES && ptPool == s.tables
      requires Inv(s) && d in s.own.dir && PdeOf(s, Pool(d), i) == UserTable(t)
      requires forall f: nat :: f < FRAMES ==> (frameInUse[f] <==> FrameUsed(s, f) && !FreedBefore(s.own, f, d, i, 0))
      modifies frameInUse
      ensures Valid()
      ensures forall f: nat :: f < FRAMES ==>
          (frameInUse[f] <==> FrameUsed(s, f) && !FreedBefore(s.own, f, d, i + 1, 0))
    {
      for j := 0 to ENTRIES
        invariant forall f: nat :: f < FRAMES ==>
            (frameInUse[f] <==> FrameUsed(s, f) && !FreedBefore(s.own, f, d, i, j))
      {
        FreedNext(s, d, i, t, j);
        if ptPool[t][j].Page? {
          var ok := FreePhysFrame(ptPool[t][j].frame);
        }
      }
      forall f ensures FreedBefore(s.own, f, d, i, ENTRIES) <==> FreedBefore(s.own, f, d, i + 1, 0) {
        assert FrameOk(s, f);
        FreedTable(s, d, i, t, f);
      }
    }

    /** The tables part of release_mm: frames, tables and user entries of m, then the directory. */
    method ReleaseTables(m: nat)
      requires Valid() && Inv(Abs()) && m in mms && cr3 != Pool(mms[m].pgd)
      modifies this, frameInUse, pdInUse, ptInUse
      ensures Valid() && old(mms)[m].pgd < DIRS && Abs() == Release(old(Abs()), m)
    {
      ghost var s := Abs();
      var d := mms[m].pgd;
      assert MmOk(s, m) && DirOk(s, d);
      for i := 0 to ENTRIES
        invariant Valid() && ptPool == s.tables && ram == s.ram && cr3 == s.cr3
        invariant tlb == s.tlb && mms == s.mms && own == s.own
        invariant pdInUse[..] == s.dirUse
        invariant forall f: nat :: f < FRAMES ==>
            (frameInUse[f] <==> FrameUsed(s, f) && !FreedBefore(s.own, f, d, i, 0))
        invariant forall t: nat :: t < TABLES ==>
            (ptInUse[t] <==> TableUsed(s, t) && !(TableOf(s.own, t, d) && s.own.table[t].index < i))
        invariant |pdPool[d]| == ENTRIES && pdPool == s.dirs[d := pdPool[d]]
        invariant forall k :: 0 <= k < ENTRIES ==>
                    pdPool[d][k] == if k < i && s.dirs[d][k].UserTable? then NoTable else s.dirs[d][k]
      {
        assert EntryOk(s, d, i);
        TablesNext(s, d, i);
        if pdPool[d][i].UserTable? {
          var t := pdPool[d][i].table;
          assert TableOk(s, t);
          FreeTableFrames(t, s, d, i);
          ptInUse[t] := false;
          pdPool := pdPool[d := pdPool[d][i := NoTable]];
        }
      }
      AllFreed(s, d);
      pdInUse[d] := false;
      mms := mms - {m};
      own := OwnersWithout(own, d);
      assert frameInUse[..] == FramesWithout(s, d);
      assert ptInUse[..] == TablesWithout(s, d);
      assert pdPool[d] == Cleared(s.dirs[d]);
      assert pdInUse[..] == s.dirUse[d := false];
    }

    // ----- loading

    /** The walk of do_mmap to the first area that does not start below. */
    method FindPosition(vs: seq<Area>, start: nat) returns (i: nat)
      ensures i == Position(vs, start)
    {
      i := 0;
      while i < |vs| && vs[i].start < start
        invariant i <= |vs| && Position(vs, start) == i + Position(vs[i..], start)
      {
        assert vs[i..][1..] == vs[i + 1..];
        i := i + 1;
      }
    }

    /** do_mmap on the area list of m; the pointer code of the list is Mmap.AddressSpace.DoMmap. */
    method MapArea(m: nat, addr: nat, length: nat, file: Option<File>, offset: nat, ok: bool) returns (done: bool)
      requires Valid() && m in mms
      modifies this`mms
      ensures Valid()
      ensures var n := DoMmap(old(Abs()), m, addr, length, file, offset, ok);
              done == n.Some? && Abs() == if done then n.value else old(Abs())
    {
      var start := AlignDown(addr);
      if file.Some? && offset < addr - start {
        return false;
      }
      var end := AlignUp((addr + length) % WORD);
      if !ok {
        return false;
      }
      var area := Area(start, end, if file.Some? then offset - (addr - start) else 0, file);
      var vs := mms[m].areas;
      var i := FindPosition(vs, start);
      if (i > 0 && vs[i - 1].end > start) || (i < |vs| && end > vs[i].start) {
        return false;
      }
      mms := mms[m := mms[m].(areas := vs[..i] + [area] + vs[i..])];
      return true;
    }

    /** The write access of padzero, on a user page of the directory that is loaded. */
    method ZeroFrom(m: nat, p: nat, k: nat, read: Read) returns (o: Outcome)
      requires Valid() && FaultReady(Abs(), m, read) && Inv(Abs()) && AreasOk(Abs(), m) && k <= PAGE
      requires cr3 == Pool(mms[m].pgd) && UserPage(p)
      modifies this, frameInUse, ptInUse
      ensures o == Halted || Valid()
      ensures var (r, e) := ZeroPage(old(Abs()), m, p, k, read); o == e && (o != Halted ==> Abs() == r)
    {
      ZeroPageKeeps(Abs(), m, p, k, read);
      var at := PageWalk(cr3, p);
      if at == None {
        var fault := HandlePageFault(Some(m), false, p, read);
        if fault == Panic {
          return Halted;
        }
        at := PageWalk(cr3, p);
      }
      if at == None || at.value >= FRAMES {
        return Halted;
      }
      var row: seq<Byte> := ram[at.value];
      ram := ram[at.value := row[..k] + Zeros(PAGE - k)];
      tlb := tlb[p := at.value];
      return Loaded;
    }

    /** padzero on a user address. */
    method ZeroToPageEnd(m: nat, addr: nat, read: Read) returns (o: Outcome)
      requires Valid() && FaultReady(Abs(), m, read) && Inv(Abs()) && AreasOk(Abs(), m)
      requires 0x40_0000 <= addr && addr <= 0xc000_0000
      modifies this, frameInUse, ptInUse
      ensures o == Halted || Valid()
      ensures var (r, e) := PadZero(old(Abs()), m, addr, read); o == e && (o != Halted ==> Abs() == r)
    {
      ghost var s := Abs();
      assert MmOk(s, m);
      var saved := cr3;
      var target := Pool(mms[m].pgd);
      AlignUpFacts(addr);
      SwitchSame(s, target, m);
      if saved != target {
        LoadCr3(target);
      }
      o := Loaded;
      if AlignUp(addr) != addr {
        o := ZeroFrom(m, addr / PAGE, addr % PAGE, read);
      }
      if o != Halted && saved != target {
        LoadCr3(saved);
      }
    }

    /** The padzero of one round, when the segment is longer in memory than in the file. */
    method PadRest(m: nat, ph: Phdr, luck: Luck) returns (o: Outcome)
      requires Valid() && FaultReady(Abs(), m, luck.read) && Inv(Abs()) && AreasOk(Abs(), m)
      requires Placed(ph) && ph.kind == PT_LOAD && 0 < ph.filesz <= ph.memsz
      modifies this, frameInUse, ptInUse
      ensures o == Halted || Valid()
      ensures var (r, e) := PadTail(old(Abs()), m, ph, luck); o == e && (o != Halted ==> Abs() == r)
    {
      SegmentNoWrap(ph);
      o := Loaded;
      if ph.memsz > ph.filesz {
        o := ZeroToPageEnd(m, (ph.vaddr + ph.filesz) % WORD, luck.read);
      }
    }

    /** The anonymous area of one round. */
    method BrkRest(m: nat, ph: Phdr, luck: Luck) returns (o: Outcome)
      requires Valid() && m in mms
      modifies this`mms
      ensures Valid() && (Abs(), o) == BrkTail(old(Abs()), m, ph, luck)
    {
      var zerosStart := AlignUp((ph.vaddr + ph.filesz) % WORD);
      var zerosEnd := (ph.vaddr + ph.memsz) % WORD;
      if zerosEnd > zerosStart {
        var mapped := MapArea(m, zerosStart, zerosEnd - zerosStart, None, 0, luck.brkOk);
        return if mapped then Loaded else Failed;
      }
      return Loaded;
    }

    /** One round of the loop of elf32_load_exec. */
    method LoadOne(m: nat, file: File, ph: Phdr, luck: Luck) returns (o: Outcome)
      requires Valid() && FaultReady(Abs(), m, luck.read) && Inv(Abs()) && AreasOk(Abs(), m) && Placed(ph)
      modifies this, frameInUse, ptInUse
      ensures o == Halted || Valid()
      ensures var (r, e) := LoadSegment(old(Abs()), m, file, ph, luck); o == e && (o != Halted ==> Abs() == r)
    {
      if ph.kind != PT_LOAD {
        return Loaded;
      }
      if ph.memsz < ph.filesz {
        return Failed;
      }
      if ph.filesz == 0 {
        if ph.memsz == 0 {
          return Loaded;
        }
        var done := MapArea(m, ph.vaddr, ph.memsz, None, 0, luck.brkOk);
        return if done then Loaded else Failed;
      }
      ghost var s := Abs();
      var done := MapArea(m, ph.vaddr, ph.filesz, Some(file), ph.offset, luck.mmapOk);
      if !done {
        return Failed;
      }
      ghost var s1 := Abs();
      MappedFile(s, m, file, ph, luck, s1);
      o := PadRest(m, ph, luck);
      if o == Loaded {
        KeepsMm(s1, m, ph, luck);
        o := BrkRest(m, ph, luck);
      }
    }

    /** The loop of elf32_load_exec. */
    method LoadAll(m: nat, file: File, phs: seq<Phdr>, lucks: seq<Luck>) returns (o: Outcome)
      requires Valid() && Inv(Abs()) && AreasOk(Abs(), m) && AllPlaced(phs) && |phs| == |lucks| && LucksOk(lucks)
      modifies this, frameInUse, ptInUse
      ensures old(mms)[m].pgd < DIRS
      ensures var (r, e) := LoadSegments(old(Abs()), m, file, phs, lucks);
              o == e && (o != Halted ==> Valid() && Abs() == r)
    {
      ghost var s := Abs();
      assert MmOk(s, m) && DirOk(s, s.mms[m].pgd);
      var i := 0;
      while i < |phs|
        invariant i <= |phs| && Valid() && Inv(Abs()) && AreasOk(Abs(), m) && mms[m].pgd < DIRS
        invariant LoadSegments(s, m, file, phs, lucks) == LoadSegments(Abs(), m, file, phs[i..], lucks[i..])
      {
        RoundThenRest(Abs(), m, file, phs, lucks, i);
        o := LoadOne(m, file, phs[i], lucks[i]);
        if o != Loaded {
          return;
        }
        i := i + 1;
      }
      return Loaded;
    }

    /** elf32_load_exec: the headers, then the loop, then the entry point. */
    method LoadFile(m: nat, file: File, headersOk: bool, lucks: seq<Luck>) returns (o: Outcome, entry: nat)
      requires Valid() && Inv(Abs()) && AreasOk(Abs(), m) && LucksOk(lucks)
      requires var h := ReadHeaders(file.content); h.Some? ==> AllPlaced(h.value.phdrs) && |lucks| == |h.value.phdrs|
      modifies this, frameInUse, ptInUse
      ensures old(mms)[m].pgd < DIRS
      ensures var (r, e, at) := LoadExec(old(Abs()), m, file, headersOk, lucks);
              o == e && (o != Halted ==> Valid() && Abs() == r) && (o == Loaded ==> entry == at)
    {
      assert MmOk(Abs(), m) && DirOk(Abs(), mms[m].pgd);
      entry := 0;
      var ehdr := ReadElf(file.content, 0, EHDR_SIZE);
      if !headersOk || ehdr == None {
        return Failed, 0;
      }
      var count := U16(ehdr.value, 44);
      if count == 0 {
        return Failed, 0;
      }
      var table := ReadElf(file.content, U32(ehdr.value, 28), count * PHDR_SIZE);
      if table == None {
        return Failed, 0;
      }
      var phs := PhdrsOf(table.value, count);
      o := LoadAll(m, file, phs, lucks);
      entry := U32(ehdr.value, 24);
    }
  }

  lemma MappedFile(s: Machine, m: nat, file: File, ph: Phdr, luck: Luck, s1: Machine)
    requires Inv(s) && AreasOk(s, m) && Placed(ph) && ph.kind == PT_LOAD && 0 < ph.filesz <= ph.memsz
    requires DoMmap(s, m, ph.vaddr, ph.filesz, Some(file), ph.offset, luck.mmapOk) == Some(s1)
    ensures Inv(s1) && AreasOk(s1, m) && s1.mms[m].pgd == s.mms[m].pgd
  {
    FilePartHolds(s, m, ph, file);
  }

  lemma RoundThenRest(s: Machine, m: nat, file: File, phs: seq<Phdr>, lucks: seq<Luck>, i: nat)
    requires Inv(s) && AreasOk(s, m) && s.mms[m].pgd < DIRS && AllPlaced(phs)
    requires |phs| == |lucks| && LucksOk(lucks) && i < |phs|
    ensures LucksOk(lucks[i..]) && LucksOk(lucks[i + 1..]) && FaultReady(s, m, lucks[i].read) && Placed(phs[i])
    ensures var (r, o) := LoadSegment(s, m, file, phs[i], lucks[i]);
            if o != Loaded then LoadSegments(s, m, file, phs[i..], lucks[i..]) == (r, o)
            else Inv(r) && AreasOk(r, m) && r.mms[m].pgd < DIRS
                 && LoadSegments(s, m, file, phs[i..], lucks[i..])
                      == LoadSegments(r, m, file, phs[i + 1..], lucks[i + 1..])
  {
    assert phs[i..][1..] == phs[i + 1..] && lucks[i..][1..] == lucks[i + 1..];
    SegmentLoads(s, m, file, phs[i], lucks[i]);
    var (r, o) := LoadSegment(s, m, file, phs[i], lucks[i]);
    if o == Loaded {
      assert MmOk(r, m) && DirOk(r, r.mms[m].pgd);
    }
  }

  lemma KeepsMm(s: Machine, m: nat, ph: Phdr, luck: Luck)
    requires FaultReady(s, m, luck.read) && Inv(s) && AreasOk(s, m)
    requires Placed(ph) && ph.kind == PT_LOAD && 0 < ph.filesz <= ph.memsz
    ensures PadTail(s, m, ph, luck).1 == Loaded ==> m in PadTail(s, m, ph, luck).0.mms
  {
    if ph.filesz < ph.memsz {
      PadSteps(s, m, ph, luck);
    }
  }

  lemma SameKernelPart(s: Machine, r: Machine, d: Dir)
    requires d.Pool? ==> d.slot < |s.dirs| && d.slot < |r.dirs| && r.dirs[d.slot] == s.dirs[d.slot]
    ensures KernelPart(r, d) == KernelPart(s, d)
  {
    assert forall k: nat :: PdeOf(r, d, k) == PdeOf(s, d, k);
  }

  // ----- what the loops of release_mm have freed

  /** Frame f of directory d belongs to an entry before (i, j). */
  ghost predicate FreedBefore(o: Owners, f: nat, d: nat, i: nat, j: nat) {
    FrameOf(o, f, d) &&
    (o.table[o.frame[f].at].index < i || (o.table[o.frame[f].at].index == i && o.frame[f].index < j))
  }

  /** The table of a frame of directory d, slot i, is the one that slot names. */
  lemma FreedTable(s: Machine, d: nat, i: nat, t: nat, f: nat)
    requires Inv(s) && d in s.own.dir && PdeOf(s, Pool(d), i) == UserTable(t)
    ensures FrameOf(s.own, f, d) && s.own.table[s.own.frame[f].at].index == i ==>
              s.own.frame[f].at == t && s.own.frame[f].index < ENTRIES && PteOf(s, t, s.own.frame[f].index) == Page(f)
  {
    assert FrameOk(s, f);
    if FrameOf(s.own, f, d) { assert TableOk(s, s.own.frame[f].at); }
  }

  lemma FreedNext(s: Machine, d: nat, i: nat, t: nat, j: nat)
    requires Inv(s) && d in s.own.dir && PdeOf(s, Pool(d), i) == UserTable(t) && i < ENTRIES && j < ENTRIES
    ensures PteOf(s, t, j).Page? ==> KERNEL_FRAMES <= PteOf(s, t, j).frame < FRAMES
    ensures forall f: nat ::
              FreedBefore(s.own, f, d, i, j + 1) <==> FreedBefore(s.own, f, d, i, j) || PteOf(s, t, j) == Page(f)
  {
    assert EntryOk(s, d, i) && MappingOk(s, t, j);
    if PteOf(s, t, j).Page? { assert FrameOk(s, PteOf(s, t, j).frame); }
    forall f: nat
      ensures FreedBefore(s.own, f, d, i, j + 1) <==> FreedBefore(s.own, f, d, i, j) || PteOf(s, t, j) == Page(f)
    {
      FreedTable(s, d, i, t, f);
    }
  }

  lemma TablesNext(s: Machine, d: nat, i: nat)
    requires Inv(s) && d in s.own.dir && i < ENTRIES
    ensures forall t: nat :: TableOf(s.own, t, d) && s.own.table[t].index == i <==> PdeOf(s, Pool(d), i) == UserTable(t)
    ensures !PdeOf(s, Pool(d), i).UserTable? ==>
              forall f: nat :: FreedBefore(s.own, f, d, i + 1, 0) <==> FreedBefore(s.own, f, d, i, 0)
  {
    assert EntryOk(s, d, i);
    forall t: nat ensures TableOf(s.own, t, d) && s.own.table[t].index == i <==> PdeOf(s, Pool(d), i) == UserTable(t) {
      assert TableOk(s, t);
    }
  }

  lemma AllFreed(s: Machine, d: nat)
    requires Inv(s) && d in s.own.dir
    ensures forall f: nat :: FreedBefore(s.own, f, d, ENTRIES, 0) <==> FrameOf(s.own, f, d)
    ensures forall t: nat :: TableOf(s.own, t, d) ==> s.own.table[t].index < ENTRIES
  {
    forall f: nat ensures FreedBefore(s.own, f, d, ENTRIES, 0) <==> FrameOf(s.own, f, d) {
      assert FrameOk(s, f);
      if FrameOf(s.own, f, d) { assert TableOk(s, s.own.frame[f].at); }
    }
    forall t: nat | TableOf(s.own, t, d) ensures s.own.table[t].index < ENTRIES { assert TableOk(s, t); }
  }

  /** What holds once the handler has looked for a table. */
  lemma FaultTable(s: Machine, m: nat, p: nat, read: Read)
    requires MayFault(s, m, p, read)
    ensures s.mms[m].pgd < DIRS && Pdi(p) < ENTRIES && !PdeOf(s, Pool(s.mms[m].pgd), Pdi(p)).KernelTable?
    ensures var d := s.mms[m].pgd; var s1 := EnsureTable(s, d, Pdi(p)); var f := FirstFree(s.frameUse);
            && s1.frameUse == s.frameUse && s1.mms == s.mms && s1.cr3 == s.cr3 && p !in s1.tlb && KERNEL_FRAMES <= f
            && (PdeOf(s1, Pool(d), Pdi(p)).UserTable? ==>
                  PdeOf(s1, Pool(d), Pdi(p)).table < TABLES
                  && (f < FRAMES ==> CanMap(s1, d, PdeOf(s1, Pool(d), Pdi(p)).table, p, f)))
  {
    EnsureTableKeeps(s, m, p, read);
    assert MmOk(s, m);
    NotKernelPage(s, s.mms[m].pgd, p);
    FreshFrame(s);
    var s1 := EnsureTable(s, s.mms[m].pgd, Pdi(p));
    assert MmOk(s1, m);
    NotCached(s1, p);
  }

  lemma NotCached(s: Machine, p: nat)
    requires Inv(s) && Walk(s, s.cr3, p) == None
    ensures p !in s.tlb
  {
    assert TlbOk(s, p);
  }
}
