/** Safety of every step and every run: what each task sees, who owns memory, and what the TLB holds. */
module SystemProofs {
  import opened Words
  import opened Vm
  import opened VmProofs
  import opened VmOwnership
  import opened MmapSpec
  import opened Elf
  import opened Loading
  import opened System

  lemma UndisturbedAreas(s: Machine, r: Machine, u: nat)
    requires AreasOk(s, u) && Undisturbed(s, r, u)
    ensures AreasOk(r, u)
  {
    assert forall p :: PdeOf(r, Pool(s.mms[u].pgd), Pdi(p)) == PdeOf(s, Pool(s.mms[u].pgd), Pdi(p));
  }

  /** No address space sees a difference. */
  ghost predicate Quiet(s: Machine, r: Machine) {
    && Inv(r) && r.mms == s.mms
    && forall u :: u in s.mms ==> SameBytes(s, r, u) && (AreasOk(s, u) ==> AreasOk(r, u))
  }

  ghost predicate SameViews(s: Sys, r: Sys) {
    && r.tasks == s.tasks
    && forall t: nat, p: nat, k: nat :: p < PAGES && k < PAGE ==> View(r, t, p, k) == View(s, t, p, k)
  }

  lemma QuietStep(s: Sys, r: Sys)
    requires SysInv(s) && Quiet(s.mach, r.mach) && r.tasks == s.tasks && r.home == s.home
    requires match r.cur case None => r.mach.cr3 == Boot case Some(t) => HasMm(r, t) && r.mach.cr3 == r.tasks[t].cr3
    ensures SysInv(r) && SameViews(s, r)
  {
    forall t ensures TaskOk(r, t) { assert TaskOk(s, t); }
    forall m ensures HomeOk(r, m) { assert HomeOk(s, m); }
    forall t: nat, p: nat, k: nat | p < PAGES && k < PAGE ensures View(r, t, p, k) == View(s, t, p, k) {
      assert TaskOk(s, t);
    }
  }

  // ----- the steps that no program can see

  lemma SetCr3Quiet(s: Machine, d: Dir)
    requires Inv(s) && DirLive(s, d)
    ensures Quiet(s, SetCr3(s, d))
  {
    SetCr3Keeps(s, d);
    forall u | u in s.mms ensures SameBytes(s, SetCr3(s, d), u) && (AreasOk(s, u) ==> AreasOk(SetCr3(s, d), u)) {
      SetCr3Undisturbs(s, d, u);
      if AreasOk(s, u) { UndisturbedAreas(s, SetCr3(s, d), u); }
    }
  }

  lemma TaskDirLive(s: Sys, t: nat)
    requires SysInv(s) && t in s.tasks
    ensures DirLive(s.mach, s.tasks[t].cr3)
  {
    assert TaskOk(s, t);
    if s.tasks[t].mm.Some? { assert MmOk(s.mach, s.tasks[t].mm.value); }
  }

  lemma DispatchKeeps(s: Sys, next: Option<nat>)
    requires SysInv(s) && (next.Some? ==> HasMm(s, next.value))
    ensures SysInv(Dispatch(s, next)) && SameViews(s, Dispatch(s, next)) && Dispatch(s, next).cur == next
  {
    if next.Some? { TaskDirLive(s, next.value); }
    var c := if next.Some? then s.tasks[next.value].cr3 else Boot;
    SetCr3Quiet(s.mach, c);
    QuietStep(s, Dispatch(s, next));
  }

  /** Changing only the TLB, to something truthful, changes nothing else. */
  lemma TlbQuiet(s: Machine, tlb: map<nat, nat>)
    requires Inv(s) && forall p :: p in tlb ==> p < PAGES && Walk(s, s.cr3, p) == Some(tlb[p])
    ensures Quiet(s, s.(tlb := tlb))
  {
    var r := s.(tlb := tlb);
    SameOwnership(s, r);
    forall q ensures TlbOk(r, q) { assert Walk(r, r.cr3, q) == Walk(s, s.cr3, q); }
    forall u | u in s.mms ensures AreasOk(s, u) ==> AreasOk(r, u) {
      assert forall p :: PdeOf(r, Pool(s.mms[u].pgd), Pdi(p)) == PdeOf(s, Pool(s.mms[u].pgd), Pdi(p));
    }
  }

  /** The TLB never lies: translation through it is translation by the page walk. */
  lemma TranslateIsWalk(s: Sys, p: nat)
    requires SysInv(s)
    ensures Translate(s, p) == Walk(s.mach, s.mach.cr3, p)
  {
    assert TlbOk(s.mach, p);
  }

  lemma FaultQuiet(s: Machine, m: nat, p: nat, read: Read)
    requires MayFault(s, m, p, read) && (forall u :: u in s.mms ==> AreasOk(s, u))
    ensures s.mms[m].pgd < DIRS && Quiet(s, PageFault(s, m, p, read).0)
  {
    FaultKeeps(s, m, p, read);
    forall u | u in s.mms ensures AreasOk(PageFault(s, m, p, read).0, u) { FaultCovered(s, m, p, read, u); }
  }

  ghost predicate CanAccess(s: Sys, p: nat, read: Read) {
    SysInv(s) && s.cur.Some? && p < PAGES && (read.ReadFailed? ==> |read.left| == PAGE)
  }

  lemma CurrentMm(s: Sys, read: Read)
    requires SysInv(s) && s.cur.Some? && (read.ReadFailed? ==> |read.left| == PAGE)
    ensures HasMm(s, s.cur.value) && FaultReady(s.mach, s.tasks[s.cur.value].mm.value, read)
    ensures s.mach.cr3 == Pool(s.mach.mms[s.tasks[s.cur.value].mm.value].pgd)
  {
    var t := s.cur.value;
    assert TaskOk(s, t) && MmOk(s.mach, s.tasks[t].mm.value);
    assert DirOk(s.mach, s.mach.mms[s.tasks[t].mm.value].pgd);
  }

  /** An access that does not end in a panic leaves the page mapped and changes what no task sees. */
  lemma AccessKeeps(s: Sys, p: nat, read: Read)
    requires CanAccess(s, p, read)
    ensures HasMm(s, s.cur.value) && FaultReady(s.mach, s.tasks[s.cur.value].mm.value, read)
    ensures var r := Access(s, p, read);
            r.Some? ==> SysInv(r.value) && SameViews(s, r.value) && UserMapped(r.value, p)
  {
    CurrentMm(s, read);
    TranslateIsWalk(s, p);
    var m := s.tasks[s.cur.value].mm.value;
    if Translate(s, p) == None {
      forall u | u in s.mach.mms ensures AreasOk(s.mach, u) { assert HomeOk(s, u); }
      FaultQuiet(s.mach, m, p, read);
      FaultKeeps(s.mach, m, p, read);
      FaultWalks(s.mach, m, p, read);
      var (r, o) := PageFault(s.mach, m, p, read);
      QuietStep(s, s.(mach := r));
      TranslateIsWalk(s.(mach := r), p);
    } else if UserMapped(s, p) {
      var tlb := s.mach.tlb[p := Translate(s, p).value];
      forall q | q in tlb ensures q < PAGES && Walk(s.mach, s.mach.cr3, q) == Some(tlb[q]) { assert TlbOk(s.mach, q); }
      TlbQuiet(s.mach, tlb);
      QuietStep(s, s.(mach := s.mach.(tlb := tlb)));
      assert PdeOf(s.mach.(tlb := tlb), s.mach.cr3, Pdi(p)) == PdeOf(s.mach, s.mach.cr3, Pdi(p));
    }
  }

  /** With a frame and a table to be had and the file readable, no access to a user page of an area ends in
      a panic. */
  lemma CoveredAccessSucceeds(s: Sys, p: nat)
    requires CanAccess(s, p, ReadOk) && UserPage(p)
    requires HasMm(s, s.cur.value) && FindArea(s.mach.mms[s.tasks[s.cur.value].mm.value].areas, p).Some?
    requires FirstFree(s.mach.frameUse) < FRAMES && FirstFree(s.mach.tableUse) < TABLES
    ensures FaultReady(s.mach, s.tasks[s.cur.value].mm.value, ReadOk) && Access(s, p, ReadOk).Some?
  {
    CurrentMm(s, ReadOk);
    TranslateIsWalk(s, p);
    var m := s.tasks[s.cur.value].mm.value;
    UserPageSlot(s.mach, m, p);
    if Translate(s, p) == None {
      EnsureTableKeeps(s.mach, m, p, ReadOk);
    }
  }

  /** A load from a mapped page yields exactly what the task's address space holds. */
  lemma LoadReadsView(s: Sys, p: nat, k: nat)
    requires SysInv(s) && s.cur.Some? && UserMapped(s, p) && p < PAGES && k < PAGE
    ensures LoadByte(s, p, k).Some? && LoadByte(s, p, k) == View(s, s.cur.value, p, k)
  {
    CurrentMm(s, ReadOk);
    TranslateIsWalk(s, p);
    WalkedFrame(s.mach, s.mach.cr3, p);
    assert |s.mach.ram[Translate(s, p).value]| == PAGE;
  }

  // ----- stores

  lemma UserMappedMaps(s: Sys, p: nat)
    requires SysInv(s) && s.cur.Some? && UserMapped(s, p) && p < PAGES
    ensures HasMm(s, s.cur.value) && Maps(s.mach, s.tasks[s.cur.value].mm.value, p, Translate(s, p).value)
    ensures Translate(s, p).value < FRAMES
  {
    CurrentMm(s, ReadOk);
    TranslateIsWalk(s, p);
    MapsOwned(s.mach, s.tasks[s.cur.value].mm.value, p, Translate(s, p).value);
  }

  /** A store changes exactly one byte of what exactly one task sees. */
  lemma StoreKeeps(s: Sys, p: nat, k: nat, b: Byte)
    requires SysInv(s) && s.cur.Some? && UserMapped(s, p) && p < PAGES && k < PAGE
    ensures Translate(s, p).value < FRAMES
    ensures var r := Store(s, p, k, b);
            && SysInv(r) && r.tasks == s.tasks
            && forall t: nat, q: nat, j: nat :: q < PAGES && j < PAGE ==>
                 View(r, t, q, j) == if s.cur == Some(t) && q == p && j == k then Some(b) else View(s, t, q, j)
  {
    UserMappedMaps(s, p);
    var m, f := s.tasks[s.cur.value].mm.value, Translate(s, p).value;
    StoreChangesOneByte(s.mach, m, p, f, k, b);
    var r := Store(s, p, k, b);
    SameOwnership(s.mach, r.mach);
    forall t ensures TaskOk(r, t) { assert TaskOk(s, t); }
    forall u ensures HomeOk(r, u) {
      assert HomeOk(s, u);
      var d := Pool(s.mach.mms[m].pgd);
      assert forall q :: PdeOf(r.mach, d, Pdi(q)) == PdeOf(s.mach, d, Pdi(q));
      if u in s.mach.mms && u != m { UndisturbedAreas(s.mach, r.mach, u); }
    }
    forall t: nat, q: nat, j: nat | q < PAGES && j < PAGE
      ensures View(r, t, q, j) == if s.cur == Some(t) && q == p && j == k then Some(b) else View(s, t, q, j)
    {
      assert TaskOk(s, t) && TaskOk(s, s.cur.value);
      if HasMm(s, t) && s.tasks[t].mm.value != m {
        assert Undisturbed(s.mach, r.mach, s.tasks[t].mm.value);
      }
    }
  }

  // ----- exit

  ghost predicate OthersSame(s: Sys, r: Sys, t: nat) {
    forall u: nat, p: nat, k: nat :: u != t && p < PAGES && k < PAGE ==> View(r, u, p, k) == View(s, u, p, k)
  }

  lemma ExitKeeps(s: Sys, next: Option<nat>)
    requires SysInv(s) && s.cur.Some? && (next.Some? ==> HasMm(s, next.value) && next != s.cur)
    ensures HasMm(s, s.cur.value) && s.mach.mms[s.tasks[s.cur.value].mm.value].pgd < DIRS
    ensures var r := Exit(s, next);
            && SysInv(r) && OthersSame(s, r, s.cur.value) && r.tasks == s.tasks[s.cur.value := TaskMm(None, Boot)]
            && r.mach.mms == s.mach.mms - {s.tasks[s.cur.value].mm.value}
  {
    CurrentMm(s, ReadOk);
    var t := s.cur.value;
    var m := s.tasks[t].mm.value;
    var d := s.mach.mms[m].pgd;
    var s1 := SetCr3(s.mach, Boot);
    SetCr3Quiet(s.mach, Boot);
    ReleaseEffect(s1, m);
    var s2 := Release(s1, m);
    ReleaseKeeps(s1, s2, m, d);
    var r := Sys(s2, s.tasks[t := TaskMm(None, Boot)], None, s.home - {m});
    forall u ensures TaskOk(r, u) { assert TaskOk(s, u) && TaskOk(s, t); }
    forall u ensures HomeOk(r, u) {
      assert HomeOk(s, u);
      if u in s2.mms {
        ReleaseUndisturbs(s1, s2, m, d, u);
        assert AreasOk(s.mach, u) ==> AreasOk(s1, u);
        UndisturbedAreas(s1, s2, u);
      }
    }
    forall u: nat, p: nat, k: nat | u != t && p < PAGES && k < PAGE ensures View(r, u, p, k) == View(s, u, p, k) {
      assert TaskOk(s, u) && TaskOk(s, t);
    }
    if next.Some? { assert TaskOk(s, next.value) && TaskOk(s, t); }
    DispatchKeeps(r, next);
  }

  /** Exit gives back exactly the frames, the tables and the directory of the exiting task. */
  lemma ExitFreesExactly(s: Sys, next: Option<nat>)
    requires SysInv(s) && s.cur.Some? && (next.Some? ==> HasMm(s, next.value) && next != s.cur)
    ensures HasMm(s, s.cur.value) && s.mach.mms[s.tasks[s.cur.value].mm.value].pgd < DIRS
    ensures Grown(Exit(s, next).mach, s.mach, s.tasks[s.cur.value].mm.value)
  {
    CurrentMm(s, ReadOk);
    var m := s.tasks[s.cur.value].mm.value;
    SetCr3Quiet(s.mach, Boot);
    var s2 := Release(SetCr3(s.mach, Boot), m);
    var r := Exit(s, next);
    ExitKeeps(s, next);
    if next.Some? { assert TaskOk(s, next.value) && TaskOk(s, s.cur.value); }
    assert r.mach == s2 || r.mach == SetCr3(s2, r.mach.cr3);
    ExitUndisturbs(s.mach, m, r.mach.cr3);
    OneMoreGrows(r.mach, s.mach, m);
  }

  /** The machine's side of exit: everybody else's memory, whichever directory is loaded at the end. */
  lemma ExitUndisturbs(s: Machine, m: nat, c: Dir)
    requires Inv(s) && m in s.mms && s.mms[m].pgd < DIRS && DirLive(Release(SetCr3(s, Boot), m), c)
    ensures var s2 := Release(SetCr3(s, Boot), m);
            forall u :: u in s2.mms ==> Undisturbed(s2, s, u) && Undisturbed(SetCr3(s2, c), s, u)
  {
    var s1, d := SetCr3(s, Boot), s.mms[m].pgd;
    SetCr3Keeps(s, Boot);
    assert MmOk(s, m);
    ReleaseEffect(s1, m);
    var s2 := Release(s1, m);
    ReleaseKeeps(s1, s2, m, d);
    forall u | u in s2.mms ensures Undisturbed(s2, s, u) && Undisturbed(SetCr3(s2, c), s, u) {
      SetCr3Undisturbs(s, Boot, u);
      ReleaseUndisturbs(s1, s2, m, d, u);
      SetCr3Undisturbs(s2, c, u);
      UndisturbedTrans(s, s1, s2, u);
    }
  }

  // ----- execve

  /** The program headers of the image, where it has any, stay clear of the kernel's addresses. */
  ghost predicate Loadable(file: File) {
    ReadHeaders(file.content).Some? ==> AllPlaced(ReadHeaders(file.content).value.phdrs)
  }

  ghost predicate Complete(file: File) {
    ReadHeaders(file.content).Some? && AllInFile(ReadHeaders(file.content).value.phdrs, file)
  }

  lemma StackArea()
    ensures WellFormed(NewArea(USER_STACK_BASE, PAGE, None, 0)) && !BadOffset(USER_STACK_BASE, None, 0)
  {
  }

  /** The page below USER_STACK_TOP is there and holds zeros. */
  ghost predicate ZeroStack(s: Machine, m: nat) {
    m in s.mms && forall k: nat :: k < PAGE ==> ByteAt(s, m, 0xbffff, k) == Some(0)
  }

  lemma StackZero(s: Machine, m: nat, r: Machine)
    requires Inv(s) && AreasOk(s, m) && DoMmap(s, m, USER_STACK_BASE, PAGE, None, 0, true).Some?
    requires LoadStep(DoMmap(s, m, USER_STACK_BASE, PAGE, None, 0, true).value, r, m)
    ensures ZeroStack(r, m)
  {
    StackArea();
    MmapBytes(s, m, NewArea(USER_STACK_BASE, PAGE, None, 0));
    var n := DoMmap(s, m, USER_STACK_BASE, PAGE, None, 0, true).value;
    forall k: nat | k < PAGE ensures ByteAt(r, m, 0xbffff, k) == Some(0) {
      assert ByteAt(n, m, 0xbffff, k) == Some(0) && FindArea(n.mms[m].areas, 0xbffff).Some?;
    }
  }

  lemma FillKeeps(s: Machine, m: nat, file: File, stackOk: bool, headersOk: bool, lucks: seq<Luck>)
    requires Inv(s) && AreasOk(s, m) && LucksOk(lucks) && Loadable(file)
    ensures s.mms[m].pgd < DIRS
    ensures var (r, o) := FillMm(s, m, file, stackOk, headersOk, lucks);
            o == Stopped ||
            (&& LoadStep(s, r, m)
             && (o.Replaced? ==>
                   && headersOk && ReadHeaders(file.content).Some? && ZeroStack(r, m)
                   && o.entry == ReadHeaders(file.content).value.entry
                   && (Complete(file) ==> HoldsAll(r, m, ReadHeaders(file.content).value.phdrs, file))))
  {
    assert MmOk(s, m) && DirOk(s, s.mms[m].pgd);
    LoadStepSelf(s, m);
    StackArea();
    var n := DoMmap(s, m, USER_STACK_BASE, PAGE, None, 0, stackOk);
    if n.Some? {
      MmapStep(s, s, m, NewArea(USER_STACK_BASE, PAGE, None, 0));
      if headersOk && ReadHeaders(file.content).Some? {
        var phs := ReadHeaders(file.content).value.phdrs;
        if |lucks| == |phs| {
          LoadsImage(n.value, m, file, phs, lucks);
          var (r, o) := LoadSegments(n.value, m, file, phs, lucks);
          if o != Halted {
            LoadStepTrans(s, n.value, r, m);
            StackZero(s, m, r);
          }
        }
      }
    }
  }

  ghost predicate CanExec(s: Sys, m: nat, env: ExecEnv) {
    SysInv(s) && s.cur.Some? && m !in s.mach.mms && LucksOk(env.lucks)
    && (env.file.Some? ==> Loadable(env.file.value))
  }

  /** r has the fresh, current and empty address space m; every other one is undisturbed. */
  ghost predicate Fresh(s: Machine, r: Machine, m: nat) {
    && Inv(r) && AreasOk(r, m) && r.cr3 == Pool(r.mms[m].pgd) && r.mms.Keys == s.mms.Keys + {m}
    && forall u :: u in s.mms ==> Undisturbed(s, r, u)
  }

  lemma CreateFresh(s: Machine, m: nat)
    requires Inv(s) && m !in s.mms && CreateMm(s, m).1
    ensures m in CreateMm(s, m).0.mms && Fresh(s, SetCr3(CreateMm(s, m).0, Pool(CreateMm(s, m).0.mms[m].pgd)), m)
  {
    var c := CreateMm(s, m).0;
    var d := FirstFree(s.dirUse);
    CreateMmEffect(s, m);
    CreateMmKeeps(s, c, m, d);
    assert MmOk(c, m);
    var r := SetCr3(c, Pool(d));
    SetCr3Keeps(c, Pool(d));
    SetCr3Undisturbs(c, Pool(d), m);
    forall u | u in s.mms ensures Undisturbed(s, r, u) {
      CreateMmUndisturbs(s, c, m, d, u);
      SetCr3Undisturbs(c, Pool(d), u);
      UndisturbedTrans(s, c, r, u);
    }
    forall i: nat ensures !PdeOf(r, Pool(d), i).UserTable? { NewDirIsBoot(s, c, m, d, i); }
  }

  lemma FilledUndisturbs(s: Machine, s1: Machine, s2: Machine, m: nat)
    requires Fresh(s, s1, m) && LoadStep(s1, s2, m) && m !in s.mms
    ensures forall u :: u in s.mms ==> Undisturbed(s, s2, u)
  {
    forall u | u in s.mms ensures Undisturbed(s, s2, u) {
      UndisturbedTrans(s, s1, s2, u);
    }
  }

  /** Dropping an address space that is not the current one. */
  lemma DropMm(s: Machine, s2: Machine, m: nat)
    requires Inv(s2) && m in s2.mms && s2.cr3 != Pool(s2.mms[m].pgd)
    requires forall u :: u in s.mms && u != m ==> Undisturbed(s, s2, u)
    ensures s2.mms[m].pgd < DIRS
    ensures var r := Release(s2, m);
            && Inv(r) && r.cr3 == s2.cr3 && r.mms == s2.mms - {m}
            && (forall u :: u in s.mms && u != m ==> Undisturbed(s, r, u))
            && (forall u :: u in s2.mms && u != m ==> Undisturbed(s2, r, u))
  {
    var d := s2.mms[m].pgd;
    assert MmOk(s2, m) && DirOk(s2, d);
    ReleaseEffect(s2, m);
    ReleaseKeeps(s2, Release(s2, m), m, d);
    forall u | u in s2.mms && u != m ensures Undisturbed(s2, Release(s2, m), u) {
      ReleaseUndisturbs(s2, Release(s2, m), m, d, u);
    }
    forall u | u in s.mms && u != m ensures Undisturbed(s, Release(s2, m), u) {
      UndisturbedTrans(s, s2, Release(s2, m), u);
    }
  }

  lemma BackToOld(s: Machine, s2: Machine, oldMm: nat)
    requires Inv(s2) && oldMm in s2.mms
    requires forall u :: u in s.mms ==> Undisturbed(s, s2, u)
    ensures var s3 := SetCr3(s2, Pool(s2.mms[oldMm].pgd)); Inv(s3) && forall u :: u in s.mms ==> Undisturbed(s, s3, u)
  {
    assert MmOk(s2, oldMm);
    var c := Pool(s2.mms[oldMm].pgd);
    SetCr3Keeps(s2, c);
    forall u | u in s.mms ensures Undisturbed(s, SetCr3(s2, c), u) {
      SetCr3Undisturbs(s2, c, u);
      UndisturbedTrans(s, s2, SetCr3(s2, c), u);
    }
  }

  lemma AllUndisturbedQuiet(s: Machine, r: Machine)
    requires Inv(s) && Inv(r) && AllUndisturbed(s, r)
    ensures Quiet(s, r)
    ensures r.frameUse == s.frameUse && r.tableUse == s.tableUse && r.dirUse == s.dirUse
  {
    UseDetermined(s, r);
    forall u | u in s.mms ensures r.mms[u] == s.mms[u] && SameBytes(s, r, u) && (AreasOk(s, u) ==> AreasOk(r, u)) {
      assert Undisturbed(s, r, u);
      if AreasOk(s, u) { UndisturbedAreas(s, r, u); }
    }
    assert r.mms == s.mms;
  }

  /** Every address space, and what is in use, is as before. */
  ghost predicate Unchanged(s: Sys, r: Sys) {
    && SysInv(r) && SameViews(s, r) && r.cur == s.cur && AllUndisturbed(s.mach, r.mach)
    && r.mach.frameUse == s.mach.frameUse && r.mach.tableUse == s.mach.tableUse && r.mach.dirUse == s.mach.dirUse
  }

  /** s2 is the machine of s with the further address space m. */
  ghost predicate Extra(s: Sys, s2: Machine, m: nat) {
    && SysInv(s) && s.cur.Some? && HasMm(s, s.cur.value) && m !in s.mach.mms
    && Inv(s2) && s2.mms.Keys == s.mach.mms.Keys + {m}
    && forall u :: u in s.mach.mms ==> Undisturbed(s.mach, s2, u)
  }

  lemma ExtraDirs(s: Sys, s2: Machine, m: nat)
    requires Extra(s, s2, m)
    ensures var oldMm := s.tasks[s.cur.value].mm.value;
            m in s2.mms && s2.mms[m].pgd < DIRS && oldMm in s2.mms && s2.mms[oldMm].pgd < DIRS
            && s2.mms[oldMm] == s.mach.mms[oldMm] && s2.mms[oldMm].pgd != s2.mms[m].pgd
            && s.mach.cr3 == Pool(s2.mms[oldMm].pgd)
  {
    CurrentMm(s, ReadOk);
    var oldMm := s.tasks[s.cur.value].mm.value;
    assert Undisturbed(s.mach, s2, oldMm);
    assert MmOk(s2, oldMm) && MmOk(s2, m);
    assert DirOk(s2, s2.mms[m].pgd) && DirOk(s2, s2.mms[oldMm].pgd);
  }

  /** A refused execve leaves every address space, and the sets of frames, tables and directories in use,
      exactly as they were. */
  lemma RefusedKeeps(s: Sys, m: nat, s2: Machine)
    requires Extra(s, s2, m)
    ensures FinishExec(s, m, s2, Refused).1 == Refused && Unchanged(s, FinishExec(s, m, s2, Refused).0)
  {
    ExtraDirs(s, s2, m);
    var oldMm := s.tasks[s.cur.value].mm.value;
    BackAndDrop(s.mach, s2, oldMm, m);
    var q := Release(SetCr3(s2, Pool(s2.mms[oldMm].pgd)), m);
    AfterDrop(s, q);
    assert FinishExec(s, m, s2, Refused) == (s.(mach := q), Refused);
  }

  /** Loading the old directory again and releasing the new address space. */
  lemma BackAndDrop(s: Machine, s2: Machine, oldMm: nat, m: nat)
    requires Inv(s2) && m !in s.mms && s2.mms.Keys == s.mms.Keys + {m}
    requires forall u :: u in s.mms ==> Undisturbed(s, s2, u)
    requires oldMm in s2.mms && oldMm != m && s2.mms[oldMm].pgd != s2.mms[m].pgd
    ensures s2.mms[m].pgd < DIRS
    ensures var q := Release(SetCr3(s2, Pool(s2.mms[oldMm].pgd)), m);
            && Inv(q) && q.mms.Keys == s.mms.Keys && q.cr3 == Pool(s2.mms[oldMm].pgd)
            && forall u :: u in s.mms ==> Undisturbed(s, q, u)
  {
    BackToOld(s, s2, oldMm);
    DropNew(s, SetCr3(s2, Pool(s2.mms[oldMm].pgd)), m);
  }

  lemma DropNew(s: Machine, s3: Machine, m: nat)
    requires Inv(s3) && m !in s.mms && s3.mms.Keys == s.mms.Keys + {m} && s3.cr3 != Pool(s3.mms[m].pgd)
    requires forall u :: u in s.mms ==> Undisturbed(s, s3, u)
    ensures s3.mms[m].pgd < DIRS
    ensures var q := Release(s3, m);
            Inv(q) && q.mms.Keys == s.mms.Keys && q.cr3 == s3.cr3 && forall u :: u in s.mms ==> Undisturbed(s, q, u)
  {
    DropMm(s, s3, m);
  }

  lemma AfterDrop(s: Sys, r: Machine)
    requires SysInv(s) && Inv(r) && r.mms.Keys == s.mach.mms.Keys && r.cr3 == s.mach.cr3
    requires forall u :: u in s.mach.mms ==> Undisturbed(s.mach, r, u)
    ensures Unchanged(s, s.(mach := r))
  {
    AllUndisturbedQuiet(s.mach, r);
    QuietStep(s, s.(mach := r));
  }

  ghost predicate Renewed(s: Sys, r: Sys, q: Machine, m: nat) {
    && s.cur.Some? && HasMm(s, s.cur.value) && m in q.mms
    && r == Sys(q, s.tasks[s.cur.value := TaskMm(Some(m), Pool(q.mms[m].pgd))], s.cur,
        s.home[m := s.cur.value] - {s.tasks[s.cur.value].mm.value})
    && (forall u :: u in s.mach.mms && u != s.tasks[s.cur.value].mm.value ==> Undisturbed(s.mach, q, u))
    && q.mms.Keys == s.mach.mms.Keys + {m} - {s.tasks[s.cur.value].mm.value} && m !in s.mach.mms
  }

  lemma RenewedTasks(s: Sys, r: Sys, q: Machine, m: nat)
    requires SysInv(s) && Renewed(s, r, q, m)
    ensures forall u :: TaskOk(r, u)
    ensures OthersSame(s, r, s.cur.value)
  {
    var t := s.cur.value;
    forall u ensures TaskOk(r, u) {
      assert TaskOk(s, u) && TaskOk(s, t);
      if u != t && u in s.tasks && s.tasks[u].mm.Some? { assert Undisturbed(s.mach, q, s.tasks[u].mm.value); }
    }
    forall u: nat, p: nat, k: nat | u != t && p < PAGES && k < PAGE ensures View(r, u, p, k) == View(s, u, p, k) {
      assert TaskOk(s, u) && TaskOk(s, t);
      if HasMm(s, u) { assert Undisturbed(s.mach, q, s.tasks[u].mm.value); }
    }
  }

  lemma RenewedHomes(s: Sys, r: Sys, q: Machine, m: nat)
    requires SysInv(s) && Renewed(s, r, q, m) && AreasOk(q, m)
    ensures forall u :: HomeOk(r, u)
  {
    forall u ensures HomeOk(r, u) {
      assert HomeOk(s, u) && TaskOk(s, s.cur.value);
      if u != m && u in q.mms { UndisturbedAreas(s.mach, q, u); }
    }
  }

  ghost predicate Succeeded(s: Sys, r: Sys, m: nat, s2: Machine) {
    && s.cur.Some? && SysInv(r) && OthersSame(s, r, s.cur.value) && r.cur == s.cur && HasMm(r, s.cur.value)
    && r.tasks[s.cur.value].mm == Some(m) && Undisturbed(s2, r.mach, m)
    && HasMm(s, s.cur.value) && Exchanged(s.mach, r.mach, s.tasks[s.cur.value].mm.value, m)
  }

  /** s with address space m of q for the current task. */
  function RenewedSys(s: Sys, q: Machine, m: nat): Sys
    requires s.cur.Some? && HasMm(s, s.cur.value) && m in q.mms
  {
    var t := s.cur.value;
    Sys(q, s.tasks[t := TaskMm(Some(m), Pool(q.mms[m].pgd))], s.cur, s.home[m := t] - {s.tasks[t].mm.value})
  }

  lemma RenewedKeeps(s: Sys, q: Machine, m: nat)
    requires SysInv(s) && s.cur.Some? && HasMm(s, s.cur.value) && m in q.mms && m !in s.mach.mms
    requires Renewed(s, RenewedSys(s, q, m), q, m) && Inv(q) && AreasOk(q, m) && q.cr3 == Pool(q.mms[m].pgd)
    ensures SysInv(RenewedSys(s, q, m)) && OthersSame(s, RenewedSys(s, q, m), s.cur.value)
  {
    RenewedTasks(s, RenewedSys(s, q, m), q, m);
    RenewedHomes(s, RenewedSys(s, q, m), q, m);
  }

  /** The state after releasing the old address space. */
  lemma ReplacedSucceeds(s: Sys, m: nat, s2: Machine)
    requires Extra(s, s2, m) && AreasOk(s2, m) && s2.cr3 == Pool(s2.mms[m].pgd)
    ensures var o := s.tasks[s.cur.value].mm.value;
            && o in s2.mms && s2.mms[o].pgd < DIRS && m in Release(s2, o).mms
            && Succeeded(s, RenewedSys(s, Release(s2, o), m), m, s2)
  {
    ExtraDirs(s, s2, m);
    var oldMm := s.tasks[s.cur.value].mm.value;
    DropMm(s.mach, s2, oldMm);
    var q := Release(s2, oldMm);
    UndisturbedAreas(s2, q, m);
    RenewedKeeps(s, q, m);
    MachineExchanged(s.mach, s2, q, oldMm, m);
  }

  lemma ReplacedKeeps(s: Sys, m: nat, s2: Machine, entry: nat)
    requires Extra(s, s2, m) && AreasOk(s2, m) && s2.cr3 == Pool(s2.mms[m].pgd)
    ensures FinishExec(s, m, s2, Replaced(entry)).1 == Replaced(entry)
    ensures Succeeded(s, FinishExec(s, m, s2, Replaced(entry)).0, m, s2)
  {
    ExtraDirs(s, s2, m);
    ReplacedSucceeds(s, m, s2);
    var q := Release(s2, s.tasks[s.cur.value].mm.value);
    assert FinishExec(s, m, s2, Replaced(entry)) == (RenewedSys(s, q, m), Replaced(entry));
  }

  lemma MachineExchanged(s: Machine, g: Machine, r: Machine, o: nat, m: nat)
    requires OneMore(s, g, m) && Inv(r) && o in s.mms && r.mms == g.mms - {o}
    requires forall u :: u in g.mms && u != o ==> Undisturbed(g, r, u)
    ensures Exchanged(s, r, o, m)
  {
    forall u | u in r.mms ensures Undisturbed(r, g, u) {
      assert Undisturbed(g, r, u);
    }
    GrownThenLess(s, g, r, o, m);
  }

  /** Task t holds the complete image of the file. */
  ghost predicate HoldsImage(s: Sys, t: nat, file: File) {
    && HasMm(s, t) && ReadHeaders(file.content).Some?
    && HoldsAll(s.mach, s.tasks[t].mm.value, ReadHeaders(file.content).value.phdrs, file)
  }

  lemma UndisturbedHolds(s: Machine, r: Machine, m: nat, phs: seq<Phdr>, file: File)
    requires Undisturbed(s, r, m) && HoldsAll(s, m, phs, file)
    ensures HoldsAll(r, m, phs, file)
  {
    forall i | 0 <= i < |phs| ensures Holds(r, m, phs[i], file) {
      assert Holds(s, m, phs[i], file);
      if phs[i].kind == PT_LOAD {
        forall p: nat, k: nat | InSegment(phs[i], phs[i].vaddr + phs[i].memsz, p, k)
          ensures HoldsAt(r, m, phs[i], file, p, k)
        {
          assert HoldsAt(s, m, phs[i], file, p, k);
        }
      }
    }
  }

  ghost predicate ImageIn(s: Machine, m: nat, file: File) {
    ReadHeaders(file.content).Some? && HoldsAll(s, m, ReadHeaders(file.content).value.phdrs, file)
  }

  lemma SucceededHolds(s: Sys, r: Sys, m: nat, s2: Machine, file: File)
    requires s.cur.Some? && Succeeded(s, r, m, s2) && ImageIn(s2, m, file)
    ensures HoldsImage(r, s.cur.value, file)
  {
    UndisturbedHolds(s2, r.mach, m, ReadHeaders(file.content).value.phdrs, file);
  }

  lemma UndisturbedStack(s: Machine, r: Machine, m: nat)
    requires Undisturbed(s, r, m) && ZeroStack(s, m)
    ensures ZeroStack(r, m)
  {
  }

  /** Task t finds zeros on its stack page. */
  ghost predicate StackReady(s: Sys, t: nat) {
    forall k: nat :: k < PAGE ==> View(s, t, 0xbffff, k) == Some(0)
  }

  /** What a finished execve guarantees. */
  ghost predicate ExecOk(s: Sys, m: nat, r: Sys, o: ExecResult, env: ExecEnv)
    requires s.cur.Some?
  {
    match o
    case Stopped => true
    case Refused => Unchanged(s, r)
    case Replaced(entry) =>
      && SysInv(r) && OthersSame(s, r, s.cur.value) && r.cur == s.cur && env.file.Some? && env.headersOk
      && HasMm(s, s.cur.value) && HasMm(r, s.cur.value) && r.tasks[s.cur.value].mm == Some(m)
      && Exchanged(s.mach, r.mach, s.tasks[s.cur.value].mm.value, m)
      && ReadHeaders(env.file.value.content).Some? && entry == ReadHeaders(env.file.value.content).value.entry
      && StackReady(r, s.cur.value)
      && (Complete(env.file.value) ==> HoldsImage(r, s.cur.value, env.file.value))
  }

  lemma FinishKeeps(s: Sys, m: nat, s1: Machine, s2: Machine, o: ExecResult, env: ExecEnv)
    requires SysInv(s) && s.cur.Some? && HasMm(s, s.cur.value) && m !in s.mach.mms && env.file.Some?
    requires o != Stopped ==> Fresh(s.mach, s1, m) && LoadStep(s1, s2, m)
    requires o.Replaced? ==>
               && env.headersOk && ZeroStack(s2, m)
               && ReadHeaders(env.file.value.content).Some?
               && o.entry == ReadHeaders(env.file.value.content).value.entry
               && (Complete(env.file.value) ==> ImageIn(s2, m, env.file.value))
    ensures var (r, o') := FinishExec(s, m, s2, o); ExecOk(s, m, r, o', env) && (o != Stopped ==> o' == o)
  {
    if o != Stopped {
      FilledUndisturbs(s.mach, s1, s2, m);
      if o == Refused {
        RefusedKeeps(s, m, s2);
      } else {
        ReplacedKeeps(s, m, s2, o.entry);
        UndisturbedStack(s2, FinishExec(s, m, s2, o).0.mach, m);
        if Complete(env.file.value) {
          SucceededHolds(s, FinishExec(s, m, s2, o).0, m, s2, env.file.value);
        }
      }
    }
  }

  lemma UnchangedSelf(s: Sys)
    requires SysInv(s)
    ensures Unchanged(s, s)
  {
  }

  /** An execve that got as far as building the new address space. */
  lemma BuiltKeeps(s: Sys, m: nat, env: ExecEnv)
    requires CanExec(s, m, env) && HasMm(s, s.cur.value) && env.file.Some? && CreateMm(s.mach, m).1
    ensures var c := CreateMm(s.mach, m).0;
            && m in c.mms && c.mms[m].pgd < DIRS && Shape(c)
            && var (s2, o) := FillMm(SetCr3(c, Pool(c.mms[m].pgd)), m, env.file.value, env.stackOk, env.headersOk,
                env.lucks);
            var (r, o') := FinishExec(s, m, s2, o);
            ExecOk(s, m, r, o', env) && (o != Stopped ==> o' == o)
  {
    CreateFresh(s.mach, m);
    CreateReady(s, m);
    var c := CreateMm(s.mach, m).0;
    var s1 := SetCr3(c, Pool(c.mms[m].pgd));
    FillKeeps(s1, m, env.file.value, env.stackOk, env.headersOk, env.lucks);
    var (s2, o) := FillMm(s1, m, env.file.value, env.stackOk, env.headersOk, env.lucks);
    FinishKeeps(s, m, s1, s2, o, env);
  }

  /** sys_execve. Unless the machine stops: a refusal changes nothing that any task sees and nothing that is
      in use; a success gives the task the image and leaves every other task alone. */
  lemma ExecveKeeps(s: Sys, m: nat, env: ExecEnv)
    requires CanExec(s, m, env)
    ensures HasMm(s, s.cur.value)
    ensures var (r, o) := Execve(s, m, env); ExecOk(s, m, r, o, env)
  {
    CurrentMm(s, ReadOk);
    if env.file.Some? && env.mmOk && CreateMm(s.mach, m).1 {
      BuiltKeeps(s, m, env);
    } else {
      UnchangedSelf(s);
    }
  }
}
