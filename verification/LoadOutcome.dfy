/** When a load succeeds: with memory to be had, exactly when the areas of its segments are sound and clear of
    each other and of what is mapped already. */
module LoadOutcome {
  import opened Words
  import opened Vm
  import opened VmProofs
  import opened VmOwnership
  import opened MmapSpec
  import opened Elf
  import opened Loading
  import opened System
  import opened SystemProofs
  import R = SystemRuns

  // ----- areas

  /** Enters areas one after the other; None as soon as one is refused. */
  function InsertAll(vs: seq<Area>, qs: seq<Area>): Option<seq<Area>>
    decreases |qs|
  {
    if qs == [] then Some(vs)
    else
      match Insert(vs, qs[0])
      case None => None
      case Some(n) => InsertAll(n, qs[1..])
  }

  predicate AllWellFormed(qs: seq<Area>) {
    forall i :: 0 <= i < |qs| ==> WellFormed(qs[i])
  }

  /** No two of the new areas overlap, and none overlaps an old one. */
  ghost predicate Clear(vs: seq<Area>, qs: seq<Area>) {
    && (forall v, q :: v in vs && q in qs ==> !Overlap(v, q))
    && (forall i, j :: 0 <= i < j < |qs| ==> !Overlap(qs[i], qs[j]))
  }

  lemma ClearStep(vs: seq<Area>, qs: seq<Area>, n: seq<Area>)
    requires qs != [] && forall v :: v in n <==> v in vs || v == qs[0]
    ensures Clear(vs, qs) <==> (forall v :: v in vs ==> !Overlap(v, qs[0])) && Clear(n, qs[1..])
  {
    var rest := qs[1..];
    assert qs[0] in qs && forall q :: q in rest ==> q in qs;
    if Clear(vs, qs) {
      forall v, q | v in n && q in rest ensures !Overlap(v, q) {
        var j :| 0 <= j < |rest| && rest[j] == q;
        assert qs[j + 1] == q;
      }
      forall i, j | 0 <= i < j < |rest| ensures !Overlap(rest[i], rest[j]) {
        assert rest[i] == qs[i + 1] && rest[j] == qs[j + 1];
      }
    }
    if (forall v :: v in vs ==> !Overlap(v, qs[0])) && Clear(n, rest) {
      assert forall q :: q in qs ==> q == qs[0] || q in rest;
      forall i, j | 0 <= i < j < |qs| ensures !Overlap(qs[i], qs[j]) {
        assert qs[j] == rest[j - 1] && rest[j - 1] in rest;
        assert i > 0 ==> qs[i] == rest[i - 1];
      }
    }
  }

  /** Entering all areas succeeds exactly when they are clear of each other and of the old ones. */
  lemma {:induction false} InsertAllComplete(vs: seq<Area>, qs: seq<Area>)
    requires Sorted(vs) && AllWellFormed(qs)
    ensures InsertAll(vs, qs).Some? <==> Clear(vs, qs)
    ensures InsertAll(vs, qs).Some? ==> Sorted(InsertAll(vs, qs).value)
    decreases |qs|
  {
    if qs != [] {
      assert WellFormed(qs[0]);
      InsertComplete(vs, qs[0]);
      var n := Insert(vs, qs[0]);
      if n.Some? {
        InsertKeeps(vs, qs[0]);
        forall i | 0 <= i < |qs| - 1 ensures WellFormed(qs[1..][i]) { assert WellFormed(qs[i + 1]); }
        InsertAllComplete(n.value, qs[1..]);
        ClearStep(vs, qs, n.value);
      } else {
        var v :| v in vs && Overlap(v, qs[0]);
        assert qs[0] in qs;
      }
    }
  }

  lemma {:induction false} InsertAllAppend(vs: seq<Area>, a: seq<Area>, b: seq<Area>)
    ensures InsertAll(vs, a + b) == match InsertAll(vs, a) case None => None case Some(n) => InsertAll(n, b)
    decreases |a|
  {
    if a == [] {
      assert a + b == b;
    } else {
      assert (a + b)[1..] == a[1..] + b;
      if Insert(vs, a[0]).Some? {
        InsertAllAppend(Insert(vs, a[0]).value, a[1..], b);
      }
    }
  }

  // ----- the areas of an image

  /** What the loader itself demands of a segment: no more in the file than in memory, and a file offset
      that can be moved back to the page boundary. */
  predicate Sane(ph: Phdr, file: File) {
    ph.kind == PT_LOAD ==> ph.filesz <= ph.memsz && (ph.filesz > 0 ==> ph.vaddr % PAGE <= ph.offset)
  }

  /** Where the part behind the last file page starts and ends. */
  function ZerosStart(ph: Phdr): nat { AlignUp((ph.vaddr + ph.filesz) % WORD) }
  function ZerosEnd(ph: Phdr): nat { (ph.vaddr + ph.memsz) % WORD }

  /** The areas that a segment enters: one for the file part, one for the pages behind it. */
  function SegmentAreas(ph: Phdr, file: File): seq<Area>
    requires Sane(ph, file)
  {
    if ph.kind != PT_LOAD || ph.memsz == 0 then []
    else if ph.filesz == 0 then [NewArea(ph.vaddr, ph.memsz, None, 0)]
    else
      [NewArea(ph.vaddr, ph.filesz, Some(file), ph.offset)]
      + if ZerosEnd(ph) > ZerosStart(ph) then [NewArea(ZerosStart(ph), ZerosEnd(ph) - ZerosStart(ph), None, 0)] else []
  }

  ghost predicate AllSane(phs: seq<Phdr>, file: File) {
    forall i :: 0 <= i < |phs| ==> Sane(phs[i], file)
  }

  ghost function ImageAreas(phs: seq<Phdr>, file: File): seq<Area>
    requires AllSane(phs, file)
  {
    if phs == [] then [] else
      assert forall i :: 0 <= i < |phs| - 1 ==> phs[1..][i] == phs[i + 1];
      SegmentAreas(phs[0], file) + ImageAreas(phs[1..], file)
  }

  lemma SegmentAreasSound(ph: Phdr, file: File)
    requires Sane(ph, file) && Placed(ph)
    ensures AllWellFormed(SegmentAreas(ph, file))
  {
    if ph.kind == PT_LOAD && ph.memsz > 0 {
      if ph.filesz == 0 {
        NewAreaCovers(ph.vaddr, ph.memsz, None, 0);
      } else {
        NewAreaCovers(ph.vaddr, ph.filesz, Some(file), ph.offset);
        SegmentNoWrap(ph);
        AlignUpFacts(ph.vaddr + ph.filesz);
        if ZerosEnd(ph) > ZerosStart(ph) {
          NewAreaCovers(ZerosStart(ph), ZerosEnd(ph) - ZerosStart(ph), None, 0);
        }
      }
    }
  }

  lemma {:induction false} ImageAreasSound(phs: seq<Phdr>, file: File)
    requires AllSane(phs, file) && AllPlaced(phs)
    ensures AllWellFormed(ImageAreas(phs, file))
    decreases |phs|
  {
    if phs != [] {
      assert Sane(phs[0], file) && Placed(phs[0]);
      SegmentAreasSound(phs[0], file);
      forall i | 0 <= i < |phs| - 1 ensures Sane(phs[1..][i], file) && Placed(phs[1..][i]) {
        assert Sane(phs[i + 1], file) && Placed(phs[i + 1]);
      }
      ImageAreasSound(phs[1..], file);
    }
  }

  // ----- memory in stock

  /** Number of unused slots. */
  function FreeCount(use: seq<bool>): nat {
    if use == [] then 0 else (if use[0] then 0 else 1) + FreeCount(use[1..])
  }

  lemma {:induction false} FreeExists(use: seq<bool>)
    requires FreeCount(use) > 0
    ensures FirstFree(use) < |use|
    decreases |use|
  {
    if use[0] {
      FreeExists(use[1..]);
    }
  }

  lemma {:induction false} TakeOne(use: seq<bool>, i: nat)
    requires i < |use|
    ensures FreeCount(use[i := true]) + 1 >= FreeCount(use)
    decreases |use|
  {
    if i > 0 {
      assert use[i := true][1..] == use[1..][i - 1 := true];
      TakeOne(use[1..], i - 1);
    } else {
      assert use[0 := true][1..] == use[1..];
    }
  }

  ghost predicate Stocked(s: Machine, n: nat) {
    FreeCount(s.frameUse) >= n && FreeCount(s.tableUse) >= n
  }

  predicate Took(a: seq<bool>, b: seq<bool>, i: nat) {
    i < |a| && b == a[i := true]
  }

  /** At most one frame and one table fewer. */
  ghost predicate Spends(s: Machine, r: Machine) {
    && (r.frameUse == s.frameUse || exists f: nat :: Took(s.frameUse, r.frameUse, f))
    && (r.tableUse == s.tableUse || exists t: nat :: Took(s.tableUse, r.tableUse, t))
  }

  lemma SpendsStock(s: Machine, r: Machine, n: nat)
    requires Stocked(s, n + 1) && Spends(s, r)
    ensures Stocked(r, n)
  {
    if r.frameUse != s.frameUse {
      var f: nat :| Took(s.frameUse, r.frameUse, f);
      TakeOne(s.frameUse, f);
    }
    if r.tableUse != s.tableUse {
      var t: nat :| Took(s.tableUse, r.tableUse, t);
      TakeOne(s.tableUse, t);
    }
  }

  // ----- faults and padding with memory in stock

  lemma FaultSpends(s: Machine, m: nat, p: nat, read: Read)
    requires MayFault(s, m, p, read) && s.mms[m].pgd < DIRS
    ensures Spends(s, PageFault(s, m, p, read).0)
  {
    var f, t := FirstFree(s.frameUse), FirstFree(s.tableUse);
    var r := PageFault(s, m, p, read).0;
    if r.frameUse != s.frameUse { assert Took(s.frameUse, r.frameUse, f); }
    if r.tableUse != s.tableUse { assert Took(s.tableUse, r.tableUse, t); }
  }

  lemma FaultResolves(s: Machine, m: nat, p: nat)
    requires MayFault(s, m, p, ReadOk) && UserPage(p) && Stocked(s, 1) && FindArea(s.mms[m].areas, p).Some?
    ensures s.mms[m].pgd < DIRS && PageFault(s, m, p, ReadOk).1 == Resolved
  {
    FreeExists(s.frameUse);
    FreeExists(s.tableUse);
    UserPageSlot(s, m, p);
    EnsureTableKeeps(s, m, p, ReadOk);
  }

  lemma ZeroPageSucceeds(s: Machine, m: nat, p: nat, from: nat)
    requires FaultReady(s, m, ReadOk) && p < PAGES && from <= PAGE
    requires Inv(s) && AreasOk(s, m) && s.cr3 == Pool(s.mms[m].pgd) && UserPage(p)
    requires Stocked(s, 1) && FindArea(s.mms[m].areas, p).Some?
    ensures var (r, o) := ZeroPage(s, m, p, from, ReadOk); o == Loaded && Spends(s, r)
  {
    UserPageSlot(s, m, p);
    if Walk(s, s.cr3, p) == None {
      FaultForZero(s, m, p, ReadOk);
      FaultResolves(s, m, p);
      FaultSpends(s, m, p, ReadOk);
      var r := PageFault(s, m, p, ReadOk).0;
      MapsOwned(r, m, p, Walk(r, r.cr3, p).value);
    } else {
      MapsOwned(s, m, p, Walk(s, s.cr3, p).value);
    }
  }

  lemma PadZeroSucceeds(s: Machine, m: nat, addr: nat)
    requires FaultReady(s, m, ReadOk) && Inv(s) && AreasOk(s, m) && Stocked(s, 1)
    requires 0x40_0000 <= addr < 0xc000_0000 && addr % PAGE != 0 && FindArea(s.mms[m].areas, addr / PAGE).Some?
    ensures var (r, o) := PadZero(s, m, addr, ReadOk); o == Loaded && Spends(s, r)
  {
    AlignUpFacts(addr);
    assert MmOk(s, m);
    var target := Pool(s.mms[m].pgd);
    SwitchSame(s, target, m);
    ZeroPageSucceeds(if s.cr3 != target then SetCr3(s, target) else s, m, addr / PAGE, addr % PAGE);
  }

  lemma PadTailSucceeds(s: Machine, m: nat, ph: Phdr, luck: Luck)
    requires FaultReady(s, m, luck.read) && Inv(s) && AreasOk(s, m) && Stocked(s, 1) && luck.read == ReadOk
    requires Placed(ph) && ph.kind == PT_LOAD && 0 < ph.filesz <= ph.memsz
    requires ph.filesz < ph.memsz && (ph.vaddr + ph.filesz) % PAGE != 0 ==>
               FindArea(s.mms[m].areas, (ph.vaddr + ph.filesz) / PAGE).Some?
    ensures var (r, o) := PadTail(s, m, ph, luck); o == Loaded && Spends(s, r) && r.mms == s.mms && Inv(r)
  {
    if ph.filesz < ph.memsz {
      var end := ph.vaddr + ph.filesz;
      TailsUnwrapped(s, m, ph, luck);
      PadSteps(s, m, ph, luck);
      if end % PAGE != 0 {
        PadZeroSucceeds(s, m, end);
      } else {
        AlignUpFacts(end);
      }
    }
  }

  // ----- segments

  predicate Lucky(luck: Luck) {
    luck.mmapOk && luck.brkOk && luck.read == ReadOk
  }

  /** What one segment does to the area list. */
  function AfterSegment(vs: seq<Area>, ph: Phdr, file: File): Option<seq<Area>> {
    if Sane(ph, file) then InsertAll(vs, SegmentAreas(ph, file)) else None
  }

  lemma FileSegmentOutcome(s: Machine, m: nat, file: File, ph: Phdr, luck: Luck)
    requires FaultReady(s, m, luck.read) && Inv(s) && AreasOk(s, m) && Placed(ph) && Lucky(luck) && Stocked(s, 1)
    requires ph.kind == PT_LOAD && 0 < ph.filesz <= ph.memsz
    ensures SegmentEnds(s, m, file, ph, luck)
  {
    if !BadOffset(ph.vaddr, Some(file), ph.offset) {
      var a := NewArea(ph.vaddr, ph.filesz, Some(file), ph.offset);
      if Insert(s.mms[m].areas, a).Some? {
        FilePartHolds(s, m, ph, file);
        var s1 := SetAreas(s, m, Insert(s.mms[m].areas, a).value);
        if ph.filesz < ph.memsz {
          LastPageNew(s, m, file, ph, s1);
        }
        PadTailSucceeds(s1, m, ph, luck);
        BrkEnds(s, s1, PadTail(s1, m, ph, luck).0, m, file, ph, luck, a);
      }
    }
  }

  /** The area behind the last file page, entered if there is one. */
  function BehindFile(vs: seq<Area>, ph: Phdr): Option<seq<Area>> {
    var lo, hi := ZerosStart(ph), ZerosEnd(ph);
    if hi > lo then Insert(vs, NewArea(lo, hi - lo, None, 0)) else Some(vs)
  }

  lemma InsertOne(vs: seq<Area>, a: Area, rest: seq<Area>)
    ensures var n := Insert(vs, a);
            InsertAll(vs, [a] + rest) == if n.Some? then InsertAll(n.value, rest) else None
    ensures rest == [] ==> InsertAll(vs, [a]) == Insert(vs, a)
  {
    assert ([a] + rest)[1..] == rest && [a] + [] == [a];
  }

  lemma FileAreasInsert(vs: seq<Area>, ph: Phdr, file: File)
    requires Sane(ph, file) && ph.kind == PT_LOAD && 0 < ph.filesz
    ensures var n := Insert(vs, NewArea(ph.vaddr, ph.filesz, Some(file), ph.offset));
            InsertAll(vs, SegmentAreas(ph, file)) == if n.Some? then BehindFile(n.value, ph) else None
  {
    var a := NewArea(ph.vaddr, ph.filesz, Some(file), ph.offset);
    var lo, hi := ZerosStart(ph), ZerosEnd(ph);
    if hi > lo {
      var b := NewArea(lo, hi - lo, None, 0);
      assert SegmentAreas(ph, file) == [a] + [b];
      InsertOne(vs, a, [b]);
      if Insert(vs, a).Some? {
        InsertOne(Insert(vs, a).value, b, []);
      }
    } else {
      assert SegmentAreas(ph, file) == [a];
      InsertOne(vs, a, []);
    }
  }

  lemma BrkAreas(s: Machine, m: nat, ph: Phdr, luck: Luck)
    requires m in s.mms && luck.brkOk
    ensures var n := BehindFile(s.mms[m].areas, ph);
            var (r, o) := BrkTail(s, m, ph, luck);
            if n.Some? then
              && o == Loaded && m in r.mms && r.mms[m].areas == n.value && r.frameUse == s.frameUse
              && r.tableUse == s.tableUse
            else o == Failed
  {
  }

  lemma LoadIsBrk(s: Machine, s1: Machine, s2: Machine, m: nat, file: File, ph: Phdr, luck: Luck)
    requires FaultReady(s, m, luck.read) && ph.kind == PT_LOAD && 0 < ph.filesz <= ph.memsz && luck.mmapOk
    requires DoMmap(s, m, ph.vaddr, ph.filesz, Some(file), ph.offset, true) == Some(s1) && FaultReady(s1, m, luck.read)
    requires PadTail(s1, m, ph, luck) == (s2, Loaded) && m in s2.mms
    ensures LoadSegment(s, m, file, ph, luck) == BrkTail(s2, m, ph, luck)
  {
  }

  lemma BrkEnds(s: Machine, s1: Machine, s2: Machine, m: nat, file: File, ph: Phdr, luck: Luck, a: Area)
    requires FaultReady(s, m, luck.read) && m in s.mms && Lucky(luck) && ph.kind == PT_LOAD && 0 < ph.filesz <= ph.memsz
    requires !BadOffset(ph.vaddr, Some(file), ph.offset) && a == NewArea(ph.vaddr, ph.filesz, Some(file), ph.offset)
    requires Insert(s.mms[m].areas, a).Some? && s1 == SetAreas(s, m, Insert(s.mms[m].areas, a).value)
    requires FaultReady(s1, m, luck.read) && PadTail(s1, m, ph, luck) == (s2, Loaded)
    requires s2.mms == s1.mms && Spends(s1, s2)
    ensures SegmentEnds(s, m, file, ph, luck)
  {
    FileAreasInsert(s.mms[m].areas, ph, file);
    LoadIsBrk(s, s1, s2, m, file, ph, luck);
    BrkAreas(s2, m, ph, luck);
  }

  /** The segment is loaded exactly when its areas can be entered, and then they are. */
  ghost predicate SegmentEnds(s: Machine, m: nat, file: File, ph: Phdr, luck: Luck)
    requires FaultReady(s, m, luck.read)
  {
    var (r, o) := LoadSegment(s, m, file, ph, luck);
    var n := AfterSegment(s.mms[m].areas, ph, file);
    if n.Some? then o == Loaded && m in r.mms && r.mms[m].areas == n.value && Spends(s, r) else o == Failed
  }

  lemma SegmentOutcome(s: Machine, m: nat, file: File, ph: Phdr, luck: Luck)
    requires FaultReady(s, m, luck.read) && Inv(s) && AreasOk(s, m) && Placed(ph) && Lucky(luck) && Stocked(s, 1)
    ensures SegmentEnds(s, m, file, ph, luck)
  {
    if ph.kind == PT_LOAD && ph.filesz == 0 && ph.memsz > 0 {
      var b := NewArea(ph.vaddr, ph.memsz, None, 0);
      assert [b][1..] == [];
      assert InsertAll(s.mms[m].areas, [b]) == Insert(s.mms[m].areas, b);
    } else if ph.kind == PT_LOAD && 0 < ph.filesz <= ph.memsz {
      FileSegmentOutcome(s, m, file, ph, luck);
    }
  }

  ghost predicate AllLucky(lucks: seq<Luck>) {
    forall i :: 0 <= i < |lucks| ==> Lucky(lucks[i])
  }

  ghost function AfterSegments(vs: seq<Area>, phs: seq<Phdr>, file: File): Option<seq<Area>>
    decreases |phs|
  {
    if phs == [] then Some(vs)
    else
      match AfterSegment(vs, phs[0], file)
      case None => None
      case Some(n) => AfterSegments(n, phs[1..], file)
  }

  lemma {:induction false} AfterSegmentsComplete(vs: seq<Area>, phs: seq<Phdr>, file: File)
    ensures AfterSegments(vs, phs, file) == if AllSane(phs, file) then InsertAll(vs, ImageAreas(phs, file)) else None
    decreases |phs|
  {
    if phs != [] {
      var rest := phs[1..];
      assert AllSane(phs, file) <==> Sane(phs[0], file) && AllSane(rest, file) by {
        if Sane(phs[0], file) && AllSane(rest, file) {
          forall i | 0 <= i < |phs| ensures Sane(phs[i], file) { assert i > 0 ==> phs[i] == rest[i - 1]; }
        }
        if AllSane(phs, file) {
          forall i | 0 <= i < |rest| ensures Sane(rest[i], file) { assert rest[i] == phs[i + 1]; }
        }
      }
      if AllSane(phs, file) {
        InsertAllAppend(vs, SegmentAreas(phs[0], file), ImageAreas(rest, file));
      }
      if AfterSegment(vs, phs[0], file).Some? {
        AfterSegmentsComplete(AfterSegment(vs, phs[0], file).value, rest, file);
      }
    }
  }

  /** The loop, with heap memory, readable pages, and a frame and a table for every segment to be had: it is never
      halted, and it loads exactly when every segment's areas can be entered. */
  lemma {:induction false} SegmentsOutcome(s: Machine, m: nat, file: File, phs: seq<Phdr>, lucks: seq<Luck>)
    requires |phs| == |lucks| && LucksOk(lucks) && AllLucky(lucks) && Inv(s) && AreasOk(s, m) && AllPlaced(phs)
    requires Stocked(s, |phs|)
    ensures s.mms[m].pgd < DIRS
    ensures var n := AfterSegments(s.mms[m].areas, phs, file);
            LoadSegments(s, m, file, phs, lucks).1 == if n.Some? then Loaded else Failed
    decreases |phs|
  {
    assert MmOk(s, m) && DirOk(s, s.mms[m].pgd);
    if phs != [] {
      assert Lucky(lucks[0]) && Placed(phs[0]);
      assert Stocked(s, 1);
      SegmentOutcome(s, m, file, phs[0], lucks[0]);
      SegmentLoads(s, m, file, phs[0], lucks[0]);
      var (r, o) := LoadSegment(s, m, file, phs[0], lucks[0]);
      if o == Loaded {
        assert MmOk(r, m) && DirOk(r, r.mms[m].pgd);
        SpendsStock(s, r, |phs| - 1);
        forall i | 0 <= i < |phs| - 1 ensures Placed(phs[1..][i]) && Lucky(lucks[1..][i]) {
          assert Placed(phs[i + 1]) && Lucky(lucks[i + 1]);
        }
        SegmentsOutcome(r, m, file, phs[1..], lucks[1..]);
      }
    }
  }

  /** A load with everything to be had succeeds exactly when each segment is sane and the areas of the image are
      clear of each other and of the areas that are there already. */
  lemma LoadSucceedsWhenClear(s: Machine, m: nat, file: File, phs: seq<Phdr>, lucks: seq<Luck>)
    requires |phs| == |lucks| && LucksOk(lucks) && AllLucky(lucks) && Inv(s) && AreasOk(s, m) && AllPlaced(phs)
    requires Stocked(s, |phs|)
    ensures s.mms[m].pgd < DIRS
    ensures var clear := AllSane(phs, file) && Clear(s.mms[m].areas, ImageAreas(phs, file));
            LoadSegments(s, m, file, phs, lucks).1 == if clear then Loaded else Failed
  {
    SegmentsOutcome(s, m, file, phs, lucks);
    AfterSegmentsComplete(s.mms[m].areas, phs, file);
    if AllSane(phs, file) {
      ImageAreasSound(phs, file);
      InsertAllComplete(s.mms[m].areas, ImageAreas(phs, file));
    }
  }

  // ----- execve

  const Stack: Area := NewArea(USER_STACK_BASE, PAGE, None, 0)

  /** The image can be laid out beside the stack page. */
  ghost predicate LaysOut(file: File) {
    ReadHeaders(file.content).Some?
    && AllSane(ReadHeaders(file.content).value.phdrs, file)
    && Clear([Stack], ImageAreas(ReadHeaders(file.content).value.phdrs, file))
  }

  /** Everything an execve asks the rest of the kernel for is there. */
  ghost predicate Supplied(s: Sys, env: ExecEnv) {
    && env.file.Some? && env.mmOk && env.stackOk && env.headersOk && AllLucky(env.lucks)
    && FirstFree(s.mach.dirUse) < DIRS
    && (ReadHeaders(env.file.value.content).Some? ==>
          |env.lucks| == |ReadHeaders(env.file.value.content).value.phdrs| && Stocked(s.mach, |env.lucks|))
  }

  lemma FillOutcome(s: Machine, m: nat, file: File, lucks: seq<Luck>)
    requires Inv(s) && AreasOk(s, m) && s.mms[m].areas == [] && LucksOk(lucks) && AllLucky(lucks) && Loadable(file)
    requires ReadHeaders(file.content).Some? ==>
               |lucks| == |ReadHeaders(file.content).value.phdrs| && Stocked(s, |lucks|)
    ensures s.mms[m].pgd < DIRS
    ensures var o := FillMm(s, m, file, true, true, lucks).1;
            if LaysOut(file) then o == Replaced(ReadHeaders(file.content).value.entry) else o == Refused
  {
    assert MmOk(s, m) && DirOk(s, s.mms[m].pgd);
    StackArea();
    var s1 := SetAreas(s, m, [Stack]);
    var none: seq<Area> := [];
    assert none[..0] + [Stack] + none[0..] == [Stack];
    MmapKeeps(s, m, Stack);
    if ReadHeaders(file.content).Some? {
      var phs := ReadHeaders(file.content).value.phdrs;
      LoadSucceedsWhenClear(s1, m, file, phs, lucks);
    }
  }

  ghost predicate Ends(o: ExecResult, file: File) {
    if LaysOut(file) then o == Replaced(ReadHeaders(file.content).value.entry) else o == Refused
  }

  lemma BuiltOutcome(s: Sys, m: nat, env: ExecEnv)
    requires CanExec(s, m, env) && Supplied(s, env)
    ensures var c := CreateMm(s.mach, m).0;
            && m in c.mms && c.mms[m].pgd < DIRS && Shape(c)
            && Ends(FillMm(SetCr3(c, Pool(c.mms[m].pgd)), m, env.file.value, true, true, env.lucks).1, env.file.value)
  {
    CreateFresh(s.mach, m);
    CreateReady(s, m);
    var c := CreateMm(s.mach, m).0;
    FillOutcome(SetCr3(c, Pool(c.mms[m].pgd)), m, env.file.value, env.lucks);
  }

  /** With everything supplied, an execve replaces the address space exactly when the file has headers and its
      image can be laid out, and is refused otherwise; it is never stopped. */
  lemma ExecveOutcome(s: Sys, m: nat, env: ExecEnv)
    requires CanExec(s, m, env) && Supplied(s, env)
    ensures HasMm(s, s.cur.value) && Ends(Execve(s, m, env).1, env.file.value)
  {
    CurrentMm(s, ReadOk);
    BuiltKeeps(s, m, env);
    BuiltOutcome(s, m, env);
  }

  // ----- nothing but the image

  lemma {:induction false} InsertAllMembers(vs: seq<Area>, qs: seq<Area>)
    requires Sorted(vs) && AllWellFormed(qs) && InsertAll(vs, qs).Some?
    ensures forall v :: v in InsertAll(vs, qs).value <==> v in vs || v in qs
    decreases |qs|
  {
    if qs != [] {
      InsertKeeps(vs, qs[0]);
      forall i | 0 <= i < |qs| - 1 ensures WellFormed(qs[1..][i]) { assert WellFormed(qs[i + 1]); }
      InsertAllMembers(Insert(vs, qs[0]).value, qs[1..]);
      assert qs == [qs[0]] + qs[1..];
    }
  }

  lemma PadKeepsAreas(s: Machine, m: nat, ph: Phdr, luck: Luck)
    requires FaultReady(s, m, luck.read) && Inv(s) && AreasOk(s, m) && Placed(ph)
    requires ph.kind == PT_LOAD && 0 < ph.filesz <= ph.memsz
    ensures var (r, o) := PadTail(s, m, ph, luck); o == Loaded ==> r.mms == s.mms
  {
    if ph.filesz < ph.memsz { PadSteps(s, m, ph, luck); }
  }

  lemma BrkLoadedAreas(s: Machine, m: nat, ph: Phdr, luck: Luck)
    requires m in s.mms
    ensures var (r, o) := BrkTail(s, m, ph, luck);
            o == Loaded ==> m in r.mms && BehindFile(s.mms[m].areas, ph) == Some(r.mms[m].areas)
  {
  }

  lemma FileLoadedAreas(s: Machine, m: nat, file: File, ph: Phdr, luck: Luck)
    requires FaultReady(s, m, luck.read) && Inv(s) && AreasOk(s, m) && Placed(ph)
    requires ph.kind == PT_LOAD && 0 < ph.filesz <= ph.memsz && LoadSegment(s, m, file, ph, luck).1 == Loaded
    ensures var r := LoadSegment(s, m, file, ph, luck).0;
            m in r.mms && AfterSegment(s.mms[m].areas, ph, file) == Some(r.mms[m].areas)
  {
    var s1 := DoMmap(s, m, ph.vaddr, ph.filesz, Some(file), ph.offset, luck.mmapOk).value;
    var a := NewArea(ph.vaddr, ph.filesz, Some(file), ph.offset);
    NewAreaCovers(ph.vaddr, ph.filesz, Some(file), ph.offset);
    MmapKeeps(s, m, a);
    PadKeepsAreas(s1, m, ph, luck);
    BrkLoadedAreas(PadTail(s1, m, ph, luck).0, m, ph, luck);
    FileAreasInsert(s.mms[m].areas, ph, file);
  }

  lemma LoadedAreas(s: Machine, m: nat, file: File, ph: Phdr, luck: Luck)
    requires FaultReady(s, m, luck.read) && Inv(s) && AreasOk(s, m) && Placed(ph)
    requires LoadSegment(s, m, file, ph, luck).1 == Loaded
    ensures var r := LoadSegment(s, m, file, ph, luck).0;
            m in r.mms && AfterSegment(s.mms[m].areas, ph, file) == Some(r.mms[m].areas)
  {
    if ph.kind == PT_LOAD && ph.filesz == 0 && ph.memsz > 0 {
      InsertOne(s.mms[m].areas, NewArea(ph.vaddr, ph.memsz, None, 0), []);
    } else if ph.kind == PT_LOAD && ph.filesz > 0 {
      FileLoadedAreas(s, m, file, ph, luck);
    }
  }

  lemma {:induction false} AllLoadedAreas(s: Machine, m: nat, file: File, phs: seq<Phdr>, lucks: seq<Luck>)
    requires |phs| == |lucks| && LucksOk(lucks) && Inv(s) && AreasOk(s, m) && AllPlaced(phs)
    ensures s.mms[m].pgd < DIRS
    ensures var (r, o) := LoadSegments(s, m, file, phs, lucks);
            o == Loaded ==> m in r.mms && AfterSegments(s.mms[m].areas, phs, file) == Some(r.mms[m].areas)
    decreases |phs|
  {
    assert MmOk(s, m) && DirOk(s, s.mms[m].pgd);
    if phs != [] {
      assert Placed(phs[0]);
      SegmentLoads(s, m, file, phs[0], lucks[0]);
      var (r, o) := LoadSegment(s, m, file, phs[0], lucks[0]);
      if o == Loaded {
        LoadedAreas(s, m, file, phs[0], lucks[0]);
        forall i | 0 <= i < |phs| - 1 ensures Placed(phs[1..][i]) { assert Placed(phs[i + 1]); }
        AllLoadedAreas(r, m, file, phs[1..], lucks[1..]);
      }
    }
  }

  /** The areas are the stack page and those of the image. */
  ghost predicate OnlyImage(vs: seq<Area>, file: File) {
    && ReadHeaders(file.content).Some? && AllSane(ReadHeaders(file.content).value.phdrs, file)
    && forall v :: v in vs <==> v == Stack || v in ImageAreas(ReadHeaders(file.content).value.phdrs, file)
  }

  lemma FillAreas(s: Machine, m: nat, file: File, stackOk: bool, headersOk: bool, lucks: seq<Luck>)
    requires Inv(s) && AreasOk(s, m) && s.mms[m].areas == [] && LucksOk(lucks) && Loadable(file)
    ensures s.mms[m].pgd < DIRS
    ensures var (r, o) := FillMm(s, m, file, stackOk, headersOk, lucks);
            o.Replaced? ==> m in r.mms && OnlyImage(r.mms[m].areas, file)
  {
    assert MmOk(s, m) && DirOk(s, s.mms[m].pgd);
    StackArea();
    var s1 := SetAreas(s, m, [Stack]);
    var none: seq<Area> := [];
    assert none[..0] + [Stack] + none[0..] == [Stack];
    MmapKeeps(s, m, Stack);
    if FillMm(s, m, file, stackOk, headersOk, lucks).1.Replaced? {
      var phs := ReadHeaders(file.content).value.phdrs;
      AllLoadedAreas(s1, m, file, phs, lucks);
      AfterSegmentsComplete([Stack], phs, file);
      ImageAreasSound(phs, file);
      InsertAllMembers([Stack], ImageAreas(phs, file));
    }
  }

  lemma BuiltAreas(s: Sys, m: nat, env: ExecEnv)
    requires CanExec(s, m, env) && env.file.Some? && CreateMm(s.mach, m).1
    ensures var c := CreateMm(s.mach, m).0;
            && m in c.mms && c.mms[m].pgd < DIRS && Shape(c)
            && var (s2, o) := FillMm(SetCr3(c, Pool(c.mms[m].pgd)), m, env.file.value, env.stackOk, env.headersOk,
                env.lucks);
            o.Replaced? ==> m in s2.mms && OnlyImage(s2.mms[m].areas, env.file.value)
  {
    CreateFresh(s.mach, m);
    CreateReady(s, m);
    var c := CreateMm(s.mach, m).0;
    FillAreas(SetCr3(c, Pool(c.mms[m].pgd)), m, env.file.value, env.stackOk, env.headersOk, env.lucks);
  }

  /** After a successful execve the address space has the stack page, the areas of the image, and nothing else. */
  lemma ExecveAreas(s: Sys, m: nat, env: ExecEnv)
    requires CanExec(s, m, env)
    ensures HasMm(s, s.cur.value)
    ensures var (r, o) := Execve(s, m, env);
            o.Replaced? ==> env.file.Some? && m in r.mach.mms && OnlyImage(r.mach.mms[m].areas, env.file.value)
  {
    CurrentMm(s, ReadOk);
    if env.file.Some? && env.mmOk && CreateMm(s.mach, m).1 {
      BuiltAreas(s, m, env);
      BuiltKeeps(s, m, env);
    }
  }

  /** A byte that a task with such areas can see outside the kernel's pages lies in one of them. */
  lemma NothingElseSeen(s: Sys, t: nat, file: File, p: nat, k: nat)
    requires SysInv(s) && HasMm(s, t) && OnlyImage(s.mach.mms[s.tasks[t].mm.value].areas, file)
    requires p < PAGES && !KernelSlot(Pdi(p)) && View(s, t, p, k).Some?
    ensures Stack.Covers(p) || exists v :: v in ImageAreas(ReadHeaders(file.content).value.phdrs, file) && v.Covers(p)
  {
    var m := s.tasks[t].mm.value;
    assert HomeOk(s, m) && MmOk(s.mach, m) && KernelOk(s.mach, s.mach.mms[m].pgd, Pdi(p));
    assert FindArea(s.mach.mms[m].areas, p).Some?;
  }

  // ----- the first task

  lemma NewMmEmpty(s: Machine, m: nat)
    requires Inv(s) && m !in s.mms && CreateMm(s, m).1
    ensures var c := CreateMm(s, m).0;
            && m in c.mms && c.mms[m].areas == [] && c.frameUse == s.frameUse && c.tableUse == s.tableUse
  {
  }

  /** With everything supplied, a task is created and loaded exactly when the file has headers and its image can be
      laid out; then its areas are the stack page and those of the image. */
  lemma SpawnOutcome(s: Sys, t: nat, m: nat, env: ExecEnv)
    requires SysInv(s) && m !in s.mach.mms && LucksOk(env.lucks) && Supplied(s, env) && Loadable(env.file.value)
    ensures var r := R.SpawnTask(s, t, m, env);
            && (r.Some? <==> LaysOut(env.file.value))
            && (r.Some? ==> m in r.value.mach.mms && OnlyImage(r.value.mach.mms[m].areas, env.file.value))
  {
    var c := CreateMm(s.mach, m).0;
    R.CreateAreas(s.mach, m);
    CreateReady(s, m);
    NewMmEmpty(s.mach, m);
    FillOutcome(c, m, env.file.value, env.lucks);
    FillAreas(c, m, env.file.value, true, true, env.lucks);
  }
}
