/** Tasks with address spaces on the machine: context switches, user accesses, exit and execve, as steps of
    a run. */
module System {
  import opened Words
  import opened Vm
  import opened VmProofs
  import opened MmapSpec
  import opened Elf
  import opened Loading

  const USER_STACK_BASE: nat := 0xbfff_f000

  /** The memory part of a task struct. An exited task has no address space and the idle task's cr3. */
  datatype TaskMm = TaskMm(mm: Option<nat>, cr3: Dir)

  /** cur is the current user task, None while the idle task runs. home says which task has an address
      space; it is bookkeeping of the model. */
  datatype Sys = Sys(mach: Machine, tasks: map<nat, TaskMm>, cur: Option<nat>, home: map<nat, nat>)

  predicate HasMm(s: Sys, t: nat) {
    t in s.tasks && s.tasks[t].mm.Some? && s.tasks[t].mm.value in s.mach.mms
  }

  /** The cr3 field of every task names a live directory: its own, or the boot directory after exit. */
  ghost predicate TaskOk(s: Sys, t: nat) {
    t in s.tasks ==>
      match s.tasks[t].mm
      case None => s.tasks[t].cr3 == Boot
      case Some(m) => m in s.mach.mms && m in s.home && s.home[m] == t && s.tasks[t].cr3 == Pool(s.mach.mms[m].pgd)
  }

  ghost predicate HomeOk(s: Sys, m: nat) {
    m in s.mach.mms ==> AreasOk(s.mach, m) && m in s.home && s.home[m] in s.tasks && s.tasks[s.home[m]].mm == Some(m)
  }

  ghost predicate SysInv(s: Sys) {
    && Inv(s.mach) && (forall t :: TaskOk(s, t)) && (forall m :: HomeOk(s, m))
    && (match s.cur case None => s.mach.cr3 == Boot case Some(t) => HasMm(s, t) && s.mach.cr3 == s.tasks[t].cr3)
  }

  /** What task t finds in byte k of page p. */
  function View(s: Sys, t: nat, p: nat, k: nat): Option<Byte> {
    if HasMm(s, t) then ByteAt(s.mach, s.tasks[t].mm.value, p, k) else None
  }

  // ----- the steps

  /** The cr3 part of context_switch: no reload when the directory is already loaded. */
  function Dispatch(s: Sys, next: Option<nat>): Sys
    requires next.Some? ==> next.value in s.tasks
  {
    var c := if next.Some? then s.tasks[next.value].cr3 else Boot;
    s.(mach := if s.mach.cr3 != c then SetCr3(s.mach, c) else s.mach, cur := next)
  }

  /** Translation as the processor does it: the TLB first, then the page walk. */
  function Translate(s: Sys, p: nat): Option<nat> {
    if p in s.mach.tlb then Some(s.mach.tlb[p]) else Walk(s.mach, s.mach.cr3, p)
  }

  predicate UserMapped(s: Sys, p: nat) {
    Translate(s, p).Some? && PdeOf(s.mach, s.mach.cr3, Pdi(p)).UserTable?
  }

  function LoadByte(s: Sys, p: nat, k: nat): Option<Byte> {
    match Translate(s, p)
    case None => None
    case Some(f) => RamAt(s.mach, f, k)
  }

  /** A user access to page p by the current task, None when the kernel panics: a protection fault, or a
      page fault that cannot be resolved. */
  function Access(s: Sys, p: nat, read: Read): Option<Sys>
    requires s.cur.Some? && HasMm(s, s.cur.value) && p < PAGES
    requires FaultReady(s.mach, s.tasks[s.cur.value].mm.value, read)
  {
    var m := s.tasks[s.cur.value].mm.value;
    if Translate(s, p) == None then
      var (r, o) := PageFault(s.mach, m, p, read);
      if o == Resolved then Some(s.(mach := r)) else None
    else if UserMapped(s, p) then Some(s.(mach := s.mach.(tlb := s.mach.tlb[p := Translate(s, p).value])))
    else None
  }

  function Store(s: Sys, p: nat, k: nat, b: Byte): Sys
    requires Shape(s.mach) && UserMapped(s, p) && Translate(s, p).value < FRAMES && k < PAGE
  {
    s.(mach := StoreByte(s.mach, Translate(s, p).value, k, b))
  }

  /** exit_task: the idle directory first, then the release, then the switch to the next task. */
  function Exit(s: Sys, next: Option<nat>): Sys
    requires s.cur.Some? && HasMm(s, s.cur.value) && Shape(s.mach)
    requires s.mach.mms[s.tasks[s.cur.value].mm.value].pgd < DIRS
    requires next.Some? ==> next.value in s.tasks
  {
    var t := s.cur.value;
    var m := s.tasks[t].mm.value;
    var r := Sys(Release(SetCr3(s.mach, Boot), m), s.tasks[t := TaskMm(None, Boot)], None, s.home - {m});
    Dispatch(r, next)
  }

  datatype ExecResult = Replaced(entry: nat) | Refused | Stopped

  /** Brings the user stack and the image into the fresh address space m. */
  ghost function FillMm(s: Machine, m: nat, file: File, stackOk: bool, headersOk: bool, lucks: seq<Luck>)
    : (Machine, ExecResult)
    requires Shape(s) && m in s.mms && s.mms[m].pgd < DIRS && LucksOk(lucks)
  {
    match DoMmap(s, m, USER_STACK_BASE, PAGE, None, 0, stackOk)
    case None => (s, Refused)
    case Some(s1) =>
      var (s2, o, entry) := LoadExec(s1, m, file, headersOk, lucks);
      (s2, match o case Loaded => Replaced(entry) case Failed => Refused case Halted => Stopped)
  }

  /** What the rest of the kernel gave to an execve: the opened file, memory for the new structs, the headers
      from the disk, and the fortunes of the load. */
  datatype ExecEnv = ExecEnv(file: Option<File>, mmOk: bool, stackOk: bool, headersOk: bool, lucks: seq<Luck>)

  /** The end of sys_execve: on a refusal back to the old address space and release of the new one,
      otherwise release of the old one. */
  function FinishExec(s: Sys, m: nat, s2: Machine, o: ExecResult): (Sys, ExecResult)
    requires s.cur.Some? && HasMm(s, s.cur.value)
  {
    var t := s.cur.value;
    var oldMm := s.tasks[t].mm.value;
    if o == Stopped || m !in s2.mms || oldMm !in s2.mms || !Shape(s2) || s2.mms[m].pgd >= DIRS
        || s2.mms[oldMm].pgd >= DIRS then
      (s.(mach := s2), Stopped)
    else if o == Refused then
      (s.(mach := Release(SetCr3(s2, Pool(s2.mms[oldMm].pgd)), m)), Refused)
    else
      (Sys(Release(s2, oldMm), s.tasks[t := TaskMm(Some(m), Pool(s2.mms[m].pgd))], s.cur, s.home[m := t] - {oldMm}), o)
  }

  /** sys_execve: the new address space is built while it is the current one. */
  ghost function Execve(s: Sys, m: nat, env: ExecEnv): (Sys, ExecResult)
    requires Inv(s.mach) && s.cur.Some? && HasMm(s, s.cur.value) && m !in s.mach.mms && LucksOk(env.lucks)
  {
    if env.file == None || !env.mmOk || !CreateMm(s.mach, m).1 then (s, Refused)
    else
      var created := CreateMm(s.mach, m).0;
      CreateReady(s, m);
      var current := SetCr3(created, Pool(created.mms[m].pgd));
      var (s2, o) := FillMm(current, m, env.file.value, env.stackOk, env.headersOk, env.lucks);
      FinishExec(s, m, s2, o)
  }

  lemma CreateReady(s: Sys, m: nat)
    requires Inv(s.mach) && m !in s.mach.mms && CreateMm(s.mach, m).1
    ensures var r := CreateMm(s.mach, m).0; Shape(r) && m in r.mms && r.mms[m].pgd < DIRS
  {
    CreateMmEffect(s.mach, m);
  }
}
