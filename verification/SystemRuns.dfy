/** Runs of the whole memory system from boot, and the guarantees that hold in every state of them. */
module SystemRuns {
  import opened Words
  import opened Vm
  import opened VmProofs
  import opened VmOwnership
  import opened MmapSpec
  import opened Elf
  import opened Loading
  import opened System
  import opened SystemProofs
  import opened KernelStores

  /** The memory system when the first task is about to be created. */
  function Booted(ram: seq<seq<Byte>>): Sys {
    Sys(Machine(seq(FRAMES, f => f < KERNEL_FRAMES), seq(DIRS, d => false), seq(DIRS, d => seq(ENTRIES, i => NoTable)),
                seq(TABLES, t => false), seq(TABLES, t => seq(ENTRIES, j => NoPage)), ram, Boot, map[], map[],
                Owners(map[], map[], map[])),
        map[], None, map[])
  }

  lemma BootedInv(ram: seq<seq<Byte>>)
    requires |ram| == FRAMES && forall f :: 0 <= f < FRAMES ==> |ram[f]| == PAGE
    ensures SysInv(Booted(ram))
  {
    var s := Booted(ram).mach;
    assert Shape(s);
    forall f: nat ensures FrameOk(s, f) { assert FrameUsed(s, f) <==> f < KERNEL_FRAMES; }
    assert Ownership(s);
  }

  datatype Step =
    | Speculate(p: nat)                        // the processor caches a translation
    | Evict(p: nat)                            // the processor drops one
    | Switch(next: Option<nat>)                // context switch to a task or to the idle task
    | Touch(p: nat, read: Read)                // user access by the current task, faulting if need be
    | Write(p: nat, k: nat, b: Byte)           // user store by the current task
    | KernelWrite(pool: nat, p: nat, k: nat, b: Byte, read: Read)   // a byte that the kernel stores for it
    | Quit(next: Option<nat>)                  // exit_task
    | Exec(m: nat, env: ExecEnv)               // sys_execve
    | Create(t: nat, m: nat)                   // create_task
    | Spawn(t: nat, m: nat, env: ExecEnv)      // create_task and the loading of its image, at boot

  /** create_task: an address space without areas. */
  function CreateTask(s: Sys, t: nat, m: nat): Option<Sys>
    requires Shape(s.mach)
  {
    var (r, ok) := CreateMm(s.mach, m);
    if !ok then None else Some(Sys(r, s.tasks[t := TaskMm(Some(m), Pool(r.mms[m].pgd))], s.cur, s.home[m := t]))
  }

  /** create_task, the stack and the image, and the first load of its directory. */
  ghost function SpawnTask(s: Sys, t: nat, m: nat, env: ExecEnv): Option<Sys>
    requires Inv(s.mach) && m !in s.mach.mms && LucksOk(env.lucks)
  {
    if env.file == None || !env.mmOk || !CreateMm(s.mach, m).1 then None
    else
      CreateReady(s, m);
      var (s2, o) := FillMm(CreateMm(s.mach, m).0, m, env.file.value, env.stackOk, env.headersOk, env.lucks);
      if !o.Replaced? || m !in s2.mms then None
      else
        var d := Pool(s2.mms[m].pgd);
        Some(Sys(SetCr3(s2, d), s.tasks[t := TaskMm(Some(m), d)], Some(t), s.home[m := t]))
  }

  /** One step of a run that does not end in a panic. */
  ghost predicate StepTo(s: Sys, st: Step, r: Sys) {
    match st
    case Speculate(p) =>
      p < PAGES && Walk(s.mach, s.mach.cr3, p).Some?
      && r == s.(mach := s.mach.(tlb := s.mach.tlb[p := Walk(s.mach, s.mach.cr3, p).value]))
    case Evict(p) => r == s.(mach := s.mach.(tlb := s.mach.tlb - {p}))
    case Switch(next) => (next.Some? ==> HasMm(s, next.value)) && r == Dispatch(s, next)
    case Touch(p, read) =>
      s.cur.Some? && HasMm(s, s.cur.value) && p < PAGES && FaultReady(s.mach, s.tasks[s.cur.value].mm.value, read)
      && Access(s, p, read) == Some(r)
    case Write(p, k, b) =>
      s.cur.Some? && p < PAGES && k < PAGE && UserMapped(s, p) && Shape(s.mach) && Translate(s, p).value < FRAMES
      && r == Store(s, p, k, b)
    case KernelWrite(pool, p, k, b, read) =>
      CanStore(s, read) && PoolAt(pool) && p < PAGES && k < PAGE && !Damages(s.mach, pool, p, k, b)
      && KernelStore(s, pool, p, k, b, read) == Some(r)
    case Quit(next) =>
      s.cur.Some? && HasMm(s, s.cur.value) && Shape(s.mach) && s.mach.mms[s.tasks[s.cur.value].mm.value].pgd < DIRS
      && (next.Some? ==> HasMm(s, next.value) && next != s.cur) && r == Exit(s, next)
    case Exec(m, env) =>
      CanExec(s, m, env) && HasMm(s, s.cur.value) && Execve(s, m, env).1 != Stopped && r == Execve(s, m, env).0
    case Create(t, m) =>
      Inv(s.mach) && m !in s.mach.mms && (t in s.tasks ==> s.tasks[t].mm == None) && CreateTask(s, t, m) == Some(r)
    case Spawn(t, m, env) =>
      s.cur == None && Inv(s.mach) && t !in s.tasks && m !in s.mach.mms && LucksOk(env.lucks)
      && (env.file.Some? ==> Loadable(env.file.value)) && SpawnTask(s, t, m, env) == Some(r)
  }

  // ----- spawning

  lemma CreateAreas(s: Machine, m: nat)
    requires Inv(s) && m !in s.mms && CreateMm(s, m).1
    ensures var c := CreateMm(s, m).0;
            Inv(c) && c.cr3 == s.cr3 && AreasOk(c, m) && c.mms.Keys == s.mms.Keys + {m}
            && forall u :: u in s.mms ==> Undisturbed(s, c, u)
  {
    var c := CreateMm(s, m).0;
    var d := FirstFree(s.dirUse);
    CreateMmEffect(s, m);
    CreateMmKeeps(s, c, m, d);
    forall u | u in s.mms ensures Undisturbed(s, c, u) { CreateMmUndisturbs(s, c, m, d, u); }
    forall i: nat ensures !PdeOf(c, Pool(d), i).UserTable? { NewDirIsBoot(s, c, m, d, i); }
  }

  lemma CreateKeeps(s: Sys, t: nat, m: nat, r: Sys)
    requires SysInv(s) && StepTo(s, Create(t, m), r)
    ensures SysInv(r) && OthersSame(s, r, t) && Grown(s.mach, r.mach, m)
    ensures r.tasks.Keys == s.tasks.Keys + {t} && r.cur == s.cur && HasMm(r, t)
    ensures forall u :: u in s.tasks && u != t ==> r.tasks[u] == s.tasks[u]
  {
    CreateAreas(s.mach, m);
    assert MmOk(r.mach, m);
    CreatedTasks(s, t, m, r);
    OneMoreGrows(s.mach, r.mach, m);
  }

  /** create_task gets an address space exactly when a directory is free. */
  lemma CreateSucceeds(s: Sys, t: nat, m: nat)
    requires Shape(s.mach)
    ensures CreateTask(s, t, m).Some? <==> exists d: nat :: d < DIRS && !DirUsed(s.mach, d)
  {
    assert FirstFree(s.mach.dirUse) < DIRS ==> !DirUsed(s.mach, FirstFree(s.mach.dirUse));
  }

  lemma CreatedTasks(s: Sys, t: nat, m: nat, r: Sys)
    requires SysInv(s) && (t in s.tasks ==> s.tasks[t].mm == None) && m !in s.mach.mms && m in r.mach.mms
    requires r.tasks == s.tasks[t := TaskMm(Some(m), Pool(r.mach.mms[m].pgd))] && r.home == s.home[m := t]
    requires Inv(r.mach) && AreasOk(r.mach, m) && r.mach.cr3 == s.mach.cr3 && r.cur == s.cur
    requires r.mach.mms.Keys == s.mach.mms.Keys + {m}
    requires forall u :: u in s.mach.mms ==> Undisturbed(s.mach, r.mach, u)
    ensures SysInv(r) && OthersSame(s, r, t)
  {
    forall u ensures TaskOk(r, u) {
      assert TaskOk(s, u);
      if u in s.tasks && s.tasks[u].mm.Some? { assert Undisturbed(s.mach, r.mach, s.tasks[u].mm.value); }
    }
    forall u ensures HomeOk(r, u) {
      assert HomeOk(s, u);
      if u in s.mach.mms { UndisturbedAreas(s.mach, r.mach, u); }
    }
    forall u: nat, p: nat, k: nat | u != t && p < PAGES && k < PAGE ensures View(r, u, p, k) == View(s, u, p, k) {
      assert TaskOk(s, u);
      if HasMm(s, u) { assert Undisturbed(s.mach, r.mach, s.tasks[u].mm.value); }
    }
  }

  lemma SpawnTasks(s: Sys, s2: Machine, t: nat, m: nat)
    requires SysInv(s) && t !in s.tasks && m !in s.mach.mms && Inv(s2) && s2.mms.Keys == s.mach.mms.Keys + {m}
    requires AreasOk(s2, m) && forall u :: u in s.mach.mms ==> Undisturbed(s.mach, s2, u)
    ensures var d := Pool(s2.mms[m].pgd);
            var r := Sys(SetCr3(s2, d), s.tasks[t := TaskMm(Some(m), d)], Some(t), s.home[m := t]);
            SysInv(r) && OthersSame(s, r, t) && Undisturbed(s2, r.mach, m)
  {
    assert MmOk(s2, m);
    var d := Pool(s2.mms[m].pgd);
    SetCr3Quiet(s2, d);
    SetCr3Undisturbs(s2, d, m);
    var r := Sys(SetCr3(s2, d), s.tasks[t := TaskMm(Some(m), d)], Some(t), s.home[m := t]);
    forall u ensures TaskOk(r, u) {
      assert TaskOk(s, u);
      if u in s.tasks && s.tasks[u].mm.Some? { assert Undisturbed(s.mach, s2, s.tasks[u].mm.value); }
    }
    forall u ensures HomeOk(r, u) {
      assert HomeOk(s, u);
      if u in s.mach.mms { UndisturbedAreas(s.mach, s2, u); }
    }
    forall u: nat, p: nat, k: nat | u != t && p < PAGES && k < PAGE ensures View(r, u, p, k) == View(s, u, p, k) {
      assert TaskOk(s, u);
      if HasMm(s, u) { assert Undisturbed(s.mach, s2, s.tasks[u].mm.value); }
    }
  }

  lemma SpawnKeeps(s: Sys, t: nat, m: nat, env: ExecEnv, r: Sys)
    requires SysInv(s) && StepTo(s, Spawn(t, m, env), r)
    ensures SysInv(r) && OthersSame(s, r, t) && env.file.Some?
    ensures StackReady(r, t)
    ensures Complete(env.file.value) ==> HoldsImage(r, t, env.file.value)
  {
    CreateAreas(s.mach, m);
    CreateReady(s, m);
    var c := CreateMm(s.mach, m).0;
    FillKeeps(c, m, env.file.value, env.stackOk, env.headersOk, env.lucks);
    var (s2, o) := FillMm(c, m, env.file.value, env.stackOk, env.headersOk, env.lucks);
    forall u | u in s.mach.mms ensures Undisturbed(s.mach, s2, u) { UndisturbedTrans(s.mach, c, s2, u); }
    SpawnTasks(s, s2, t, m);
    UndisturbedStack(s2, r.mach, m);
    if Complete(env.file.value) {
      UndisturbedHolds(s2, r.mach, m, ReadHeaders(env.file.value.content).value.phdrs, env.file.value);
    }
  }

  /** Spawning takes exactly the frames, the tables and the directory of the new address space, all of them
      free before. */
  lemma SpawnTakesExactly(s: Sys, t: nat, m: nat, env: ExecEnv, r: Sys)
    requires SysInv(s) && StepTo(s, Spawn(t, m, env), r)
    ensures Grown(s.mach, r.mach, m)
  {
    SpawnKeeps(s, t, m, env, r);
    CreateAreas(s.mach, m);
    CreateReady(s, m);
    var c := CreateMm(s.mach, m).0;
    FillKeeps(c, m, env.file.value, env.stackOk, env.headersOk, env.lucks);
    var s2 := FillMm(c, m, env.file.value, env.stackOk, env.headersOk, env.lucks).0;
    var d := Pool(s2.mms[m].pgd);
    assert MmOk(s2, m);
    forall u | u in s.mach.mms ensures Undisturbed(s.mach, r.mach, u) {
      UndisturbedTrans(s.mach, c, s2, u);
      SetCr3Undisturbs(s2, d, u);
      UndisturbedTrans(s.mach, s2, r.mach, u);
    }
    OneMoreGrows(s.mach, r.mach, m);
  }

  // ----- steps

  lemma TlbStepKeeps(s: Sys, st: Step, r: Sys)
    requires SysInv(s) && StepTo(s, st, r) && (st.Speculate? || st.Evict?)
    ensures SysInv(r) && SameViews(s, r)
  {
    forall q | q in r.mach.tlb
      ensures q < PAGES && Walk(s.mach, s.mach.cr3, q) == Some(r.mach.tlb[q]) { assert TlbOk(s.mach, q); }
    TlbQuiet(s.mach, r.mach.tlb);
    QuietStep(s, r);
  }

  lemma StepKeepsInv(s: Sys, st: Step, r: Sys)
    requires SysInv(s) && StepTo(s, st, r)
    ensures SysInv(r)
  {
    match st
    case Speculate(p) => TlbStepKeeps(s, st, r);
    case Evict(p) => TlbStepKeeps(s, st, r);
    case Switch(next) => DispatchKeeps(s, next);
    case Touch(p, read) => AccessKeeps(s, p, read);
    case Write(p, k, b) => StoreKeeps(s, p, k, b);
    case KernelWrite(pool, p, k, b, read) => KernelStoreExact(s, pool, p, k, b, read);
    case Quit(next) => ExitKeeps(s, next);
    case Exec(m, env) => ExecveKeeps(s, m, env);
    case Create(u, m) => CreateKeeps(s, u, m, r);
    case Spawn(t, m, env) => SpawnKeeps(s, t, m, env, r);
  }

  /** The steps that may change what task t sees in its own pages: its own stores, those that the kernel does for it,
      its exit, its successful execve, its birth. */
  ghost predicate Affects(s: Sys, st: Step, t: nat) {
    || (s.cur == Some(t) && (st.Write? || st.Quit? || (st.KernelWrite? && !KernelPage(st.p))))
    || (s.cur == Some(t) && st.Exec? && CanExec(s, st.m, st.env) && HasMm(s, t) && Execve(s, st.m, st.env).1.Replaced?)
    || ((st.Create? || st.Spawn?) && st.t == t)
  }

  /** The step changes a byte of the kernel's memory, which all tasks share. */
  predicate ChangesKernel(s: Sys, st: Step) {
    st.KernelWrite? && KernelPage(st.p) && !InPool(st.pool, Pti(st.p)) && RamAt(s.mach, Pti(st.p), st.k) != Some(st.b)
  }

  ghost predicate SameView(s: Sys, r: Sys, t: nat) {
    forall p: nat, k: nat :: p < PAGES && k < PAGE ==> View(r, t, p, k) == View(s, t, p, k)
  }

  ghost predicate SameOwnPages(s: Sys, r: Sys, t: nat) {
    forall p: nat, k: nat :: p < PAGES && k < PAGE && !KernelPage(p) ==> View(r, t, p, k) == View(s, t, p, k)
  }

  /** Isolation: any other step of any task leaves every byte of t's own pages as it was, and those of the kernel's
      pages too unless it stores there. */
  lemma StepIsolates(s: Sys, st: Step, r: Sys, t: nat)
    requires SysInv(s) && StepTo(s, st, r) && !Affects(s, st, t)
    ensures SameOwnPages(s, r, t)
    ensures !ChangesKernel(s, st) ==> SameView(s, r, t)
  {
    match st
    case Speculate(p) => TlbStepKeeps(s, st, r);
    case Evict(p) => TlbStepKeeps(s, st, r);
    case Switch(next) => DispatchKeeps(s, next);
    case Touch(p, read) => AccessKeeps(s, p, read);
    case Write(p, k, b) => StoreKeeps(s, p, k, b);
    case KernelWrite(pool, p, k, b, read) => KernelWriteIsolates(s, st, r, t);
    case Quit(next) => ExitKeeps(s, next);
    case Exec(m, env) => ExecveKeeps(s, m, env);
    case Create(u, m) => CreateKeeps(s, u, m, r);
    case Spawn(u, m, env) => SpawnKeeps(s, u, m, env, r);
  }

  lemma KernelWriteIsolates(s: Sys, st: Step, r: Sys, t: nat)
    requires SysInv(s) && StepTo(s, st, r) && !Affects(s, st, t) && st.KernelWrite?
    ensures SameOwnPages(s, r, t)
    ensures !ChangesKernel(s, st) ==> SameView(s, r, t)
  {
    KernelStoreExact(s, st.pool, st.p, st.k, st.b, st.read);
    if KernelPage(st.p) && !ChangesKernel(s, st) {
      forall q: nat | KernelPage(q) && HasMm(s, t) ensures View(s, t, q, st.k) == RamAt(s.mach, Pti(q), st.k) {
        KernelPageWalk(s, q);
      }
    }
  }

  // ----- runs

  ghost predicate StepAt(ss: seq<Sys>, sts: seq<Step>, i: nat)
    requires i < |sts| < |ss|
  {
    StepTo(ss[i], sts[i], ss[i + 1])
  }

  ghost predicate Run(ss: seq<Sys>, sts: seq<Step>) {
    && |ss| == |sts| + 1 && SysInv(ss[0])
    && forall i :: 0 <= i < |sts| ==> StepAt(ss, sts, i)
  }

  lemma {:induction false} RunKeepsInv(ss: seq<Sys>, sts: seq<Step>, i: nat)
    requires Run(ss, sts) && i < |ss|
    ensures SysInv(ss[i])
  {
    if i > 0 {
      RunKeepsInv(ss, sts, i - 1);
      assert StepAt(ss, sts, i - 1);
      StepKeepsInv(ss[i - 1], sts[i - 1], ss[i]);
    }
  }

  /** In every state of every run: translation through the TLB is the current page walk, and every task's
      cr3 names a directory in use, or the boot directory. */
  lemma TlbNeverLies(ss: seq<Sys>, sts: seq<Step>, i: nat)
    requires Run(ss, sts) && i < |ss|
    ensures forall p :: Translate(ss[i], p) == Walk(ss[i].mach, ss[i].mach.cr3, p)
    ensures forall t :: t in ss[i].tasks && ss[i].tasks[t].cr3.Pool? ==> DirUsed(ss[i].mach, ss[i].tasks[t].cr3.slot)
  {
    RunKeepsInv(ss, sts, i);
    forall p ensures Translate(ss[i], p) == Walk(ss[i].mach, ss[i].mach.cr3, p) { TranslateIsWalk(ss[i], p); }
    forall t | t in ss[i].tasks && ss[i].tasks[t].cr3.Pool? ensures DirUsed(ss[i].mach, ss[i].tasks[t].cr3.slot) {
      TaskDirLive(ss[i], t);
      assert DirOk(ss[i].mach, ss[i].tasks[t].cr3.slot);
    }
  }

  /** In every state of every run: once no task has an address space, all physical memory beyond the
      kernel's is free again. */
  lemma NothingLeaks(ss: seq<Sys>, sts: seq<Step>, i: nat)
    requires Run(ss, sts) && i < |ss|
    requires forall t :: t in ss[i].tasks ==> ss[i].tasks[t].mm == None
    ensures forall f: nat :: FrameUsed(ss[i].mach, f) <==> f < KERNEL_FRAMES
    ensures forall t: nat :: !TableUsed(ss[i].mach, t)
    ensures forall d: nat :: !DirUsed(ss[i].mach, d)
  {
    RunKeepsInv(ss, sts, i);
    var s := ss[i].mach;
    forall m ensures m !in s.mms { assert HomeOk(ss[i], m); }
    forall d: nat ensures d !in s.own.dir && !DirUsed(s, d) { assert DirOk(s, d); }
    forall t: nat ensures t !in s.own.table && !TableUsed(s, t) { assert TableOk(s, t); }
    forall f: nat ensures FrameUsed(s, f) <==> f < KERNEL_FRAMES { assert FrameOk(s, f); }
  }

  /** Over steps i to j no step affects t. */
  ghost predicate Untouched(ss: seq<Sys>, sts: seq<Step>, t: nat, i: nat, j: nat)
    requires i <= j <= |sts| < |ss|
  {
    forall k :: i <= k < j ==> !Affects(ss[k], sts[k], t)
  }

  predicate KernelUntouched(ss: seq<Sys>, sts: seq<Step>, i: nat, j: nat)
    requires i <= j <= |sts| < |ss|
  {
    forall k :: i <= k < j ==> !ChangesKernel(ss[k], sts[k])
  }

  lemma {:induction false} RunIsolates(ss: seq<Sys>, sts: seq<Step>, t: nat, i: nat, j: nat)
    requires Run(ss, sts) && i <= j <= |sts| && Untouched(ss, sts, t, i, j)
    ensures SameOwnPages(ss[i], ss[j], t)
    ensures KernelUntouched(ss, sts, i, j) ==> SameView(ss[i], ss[j], t)
    decreases j
  {
    if i < j {
      RunIsolates(ss, sts, t, i, j - 1);
      RunKeepsInv(ss, sts, j - 1);
      assert StepAt(ss, sts, j - 1);
      StepIsolates(ss[j - 1], sts[j - 1], ss[j], t);
    }
  }

  /** Byte a of the segment as task t sees it, and as a load returns it once the page is mapped. */
  ghost predicate SeesByte(s: Sys, t: nat, a: nat, b: Byte) {
    && View(s, t, a / PAGE, a % PAGE) == Some(b)
    && (s.cur == Some(t) && UserMapped(s, a / PAGE) ==> LoadByte(s, a / PAGE, a % PAGE) == Some(b))
  }

  /** What a program header prescribes at address a, if its segment covers a. */
  function Prescribed(file: File, seg: nat, a: nat): Option<Byte> {
    match ReadHeaders(file.content)
    case None => None
    case Some(headers) =>
      if seg < |headers.phdrs| && headers.phdrs[seg].kind == PT_LOAD
         && headers.phdrs[seg].vaddr <= a < headers.phdrs[seg].vaddr + headers.phdrs[seg].memsz then
        Some(ImageByte(headers.phdrs[seg], file, a))
      else None
  }

  lemma HeldByteSeen(s: Sys, t: nat, file: File, seg: nat, a: nat)
    requires SysInv(s) && HoldsImage(s, t, file) && a / PAGE < PAGES && Prescribed(file, seg, a).Some?
    ensures View(s, t, a / PAGE, a % PAGE) == Prescribed(file, seg, a)
  {
    var ph := ReadHeaders(file.content).value.phdrs[seg];
    assert Holds(s.mach, s.tasks[t].mm.value, ph, file);
    assert a == a / PAGE * PAGE + a % PAGE;
    assert InSegment(ph, ph.vaddr + ph.memsz, a / PAGE, a % PAGE);
    assert HoldsAt(s.mach, s.tasks[t].mm.value, ph, file, a / PAGE, a % PAGE);
  }

  /** The step loads the file as the image of task t, by a successful execve or by spawning it. */
  ghost predicate Loads(s: Sys, st: Step, t: nat, file: File) {
    match st
    case Exec(m, env) =>
      env.file == Some(file) && s.cur == Some(t) && CanExec(s, m, env) && HasMm(s, t) && Execve(s, m, env).1.Replaced?
    case Spawn(u, m, env) => env.file == Some(file) && u == t
    case _ => false
  }

  lemma LoadsHolds(s: Sys, st: Step, r: Sys, t: nat, file: File)
    requires SysInv(s) && StepTo(s, st, r) && Loads(s, st, t, file) && Complete(file)
    ensures HoldsImage(r, t, file)
  {
    if st.Exec? {
      ExecveKeeps(s, st.m, st.env);
    } else {
      SpawnKeeps(s, t, st.m, st.env, r);
    }
  }

  /** A fresh image comes with a zeroed stack page. */
  lemma LoadsStack(s: Sys, st: Step, r: Sys, t: nat, file: File)
    requires SysInv(s) && StepTo(s, st, r) && Loads(s, st, t, file)
    ensures StackReady(r, t)
  {
    if st.Exec? {
      ExecveKeeps(s, st.m, st.env);
    } else {
      SpawnKeeps(s, t, st.m, st.env, r);
    }
  }

  /** The stack of a fresh image reads as zeros until the task itself stores there, whatever happens meanwhile. */
  lemma StackStaysZero(ss: seq<Sys>, sts: seq<Step>, t: nat, file: File, i: nat, j: nat)
    requires Run(ss, sts) && i < j <= |sts| && Loads(ss[i], sts[i], t, file) && Untouched(ss, sts, t, i + 1, j)
    ensures StackReady(ss[j], t)
  {
    LoadedStack(ss, sts, t, file, i);
    RunIsolates(ss, sts, t, i + 1, j);
    StackKept(ss[i + 1], ss[j], t);
  }

  lemma LoadedStack(ss: seq<Sys>, sts: seq<Step>, t: nat, file: File, i: nat)
    requires Run(ss, sts) && i < |sts| && Loads(ss[i], sts[i], t, file)
    ensures StackReady(ss[i + 1], t)
  {
    RunKeepsInv(ss, sts, i);
    assert StepAt(ss, sts, i);
    LoadsStack(ss[i], sts[i], ss[i + 1], t, file);
  }

  lemma StackKept(s: Sys, r: Sys, t: nat)
    requires StackReady(s, t) && SameOwnPages(s, r, t)
    ensures StackReady(r, t)
  {
    assert !KernelPage(0xbffff);
  }

  lemma SeenByteLoads(s: Sys, t: nat, a: nat, b: Byte)
    requires SysInv(s) && a / PAGE < PAGES && View(s, t, a / PAGE, a % PAGE) == Some(b)
    ensures SeesByte(s, t, a, b)
  {
    if s.cur == Some(t) && UserMapped(s, a / PAGE) {
      LoadReadsView(s, a / PAGE, a % PAGE);
    }
  }

  /** The byte right after the load. */
  lemma LoadedByte(ss: seq<Sys>, sts: seq<Step>, t: nat, file: File, i: nat, seg: nat, a: nat)
    requires Run(ss, sts) && i < |sts| && Complete(file) && Loads(ss[i], sts[i], t, file)
    requires a / PAGE < PAGES && Prescribed(file, seg, a).Some?
    ensures View(ss[i + 1], t, a / PAGE, a % PAGE) == Prescribed(file, seg, a)
  {
    RunKeepsInv(ss, sts, i);
    RunKeepsInv(ss, sts, i + 1);
    assert StepAt(ss, sts, i);
    LoadsHolds(ss[i], sts[i], ss[i + 1], t, file);
    HeldByteSeen(ss[i + 1], t, file, seg, a);
  }

  lemma PrescribedInOwnPages(file: File, seg: nat, a: nat)
    requires Loadable(file) && Prescribed(file, seg, a).Some?
    ensures !KernelPage(a / PAGE)
  {
    var phs := ReadHeaders(file.content).value.phdrs;
    assert Placed(phs[seg]);
  }

  lemma LoadedInOwnPages(ss: seq<Sys>, sts: seq<Step>, t: nat, file: File, i: nat, seg: nat, a: nat)
    requires Run(ss, sts) && i < |sts| && Loads(ss[i], sts[i], t, file) && Prescribed(file, seg, a).Some?
    ensures !KernelPage(a / PAGE)
  {
    assert StepAt(ss, sts, i);
    PrescribedInOwnPages(file, seg, a);
  }

  lemma AddressInPages(a: nat)
    requires a < WORD
    ensures a / PAGE < PAGES && a % PAGE < PAGE
  {
  }

  /** Demand paging is eager loading: after task t has loaded a complete image, however faults, TLB fills,
      switches and the doings of other tasks are interleaved, each byte of each segment reads as the file
      or zero byte that the program header prescribes, until t itself stores, exits or execs. */
  lemma DemandPagingIsEager(ss: seq<Sys>, sts: seq<Step>, t: nat, file: File, i: nat, j: nat, seg: nat, a: nat)
    requires Run(ss, sts) && i < j <= |sts| && Complete(file)
    requires Loads(ss[i], sts[i], t, file) && Untouched(ss, sts, t, i + 1, j)
    requires a < WORD && Prescribed(file, seg, a).Some?
    ensures SeesByte(ss[j], t, a, Prescribed(file, seg, a).value)
  {
    AddressInPages(a);
    LoadedByte(ss, sts, t, file, i, seg, a);
    LoadedInOwnPages(ss, sts, t, file, i, seg, a);
    RunIsolates(ss, sts, t, i + 1, j);
    RunKeepsInv(ss, sts, j);
    SeenByteLoads(ss[j], t, a, Prescribed(file, seg, a).value);
  }
}
