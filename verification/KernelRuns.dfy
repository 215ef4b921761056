/** The scheduler, the memory system and the context switch as one machine: the directory in cr3, the stack and the
    registers are always those of the task that the scheduler runs. */
module KernelRuns {
  import opened Words
  import opened System
  import opened SystemProofs
  import Vm
  import S = SchedSpec
  import SW = SchedWaiting
  import C = ContextSwitch
  import R = SystemRuns
  import V = KernelStores

  datatype Kernel = Kernel(sched: S.Sched<nat>, sys: Sys, world: C.World)

  /** The current task of the memory system: None while the idle task runs. */
  function UserOf(s: S.Sched<nat>): Option<nat> {
    if s.current == Some(s.idle) then None else s.current
  }

  /** A task has an address space exactly until it exits. */
  ghost predicate TaskAgrees(k: Kernel, t: nat) {
    t in k.sched.state && t != k.sched.idle ==>
      t in k.sys.tasks && (k.sched.state[t].Zombie? <==> k.sys.tasks[t].mm == None)
  }

  /** Whoever has an address space is a task in memory. */
  ghost predicate LiveAgrees(k: Kernel, t: nat) {
    t in k.sys.tasks && k.sys.tasks[t].mm.Some? ==> t in k.sched.state && t != k.sched.idle
  }

  /** The three machines agree on who runs. */
  ghost predicate Agree(k: Kernel) {
    && S.Inv(k.sched) && k.sched.current.Some? && SysInv(k.sys) && C.Placed(k.world.tasks)
    && k.sys.cur == UserOf(k.sched) && k.world.cur == k.sched.current.value
    && (forall t :: TaskAgrees(k, t)) && (forall t :: LiveAgrees(k, t))
    && (forall t :: t in k.sched.state ==> t in k.world.tasks)
  }

  datatype Step =
    | Own(own: R.Step)    // an access, a store, an execve of the current task, or a TLB fill or eviction
    | Tick                // schedule
    | Block(t: nat)
    | Wake(t: nat)
    | Enqueue(t: nat)
    | Quit                // exit_task
    | Prepare(t: nat, code: C.Code, entry: nat, eflags: nat, userEsp: nat)
    | Create(t: nat, m: nat, stack: C.Stack, gone: set<nat>)   // create_task, maybe in memory of tasks that are gone

  /** What a step is to the scheduler. */
  function OpOf(st: Step): Option<S.Op<nat>> {
    match st
    case Tick => Some(S.DoSchedule)
    case Block(t) => Some(S.DoBlock(t))
    case Wake(t) => Some(S.DoWake(t))
    case Enqueue(t) => Some(S.DoEnqueue(t))
    case Quit => Some(S.DoExit)
    case _ => None
  }

  /** What a step is to the stacks. */
  function EventOf(k: Kernel, st: Step, r: Kernel): C.Event {
    match st
    case Prepare(t, code, entry, eflags, userEsp) => C.Prepare(t, code, entry, eflags, userEsp)
    case Create(t, _, stack, gone) => C.Create(t, stack, gone)
    case _ =>
      if r.sched.current.Some? && r.sched.current != k.sched.current then C.Switch(r.sched.current.value) else C.Work
  }

  /** What a step of the scheduler does to the memory system: context_switch loads the next task's directory, and
      exit releases the address space first. */
  ghost predicate SysFollows(k: Kernel, st: Step, r: Kernel) {
    var next := UserOf(r.sched);
    if st.Quit? then
      k.sys.cur.Some? && HasMm(k.sys, k.sys.cur.value) && SysInv(k.sys)
      && (next.Some? ==> HasMm(k.sys, next.value) && next != k.sys.cur)
      && (ExitKeeps(k.sys, next); r.sys == Exit(k.sys, next))
    else if r.sched.current != k.sched.current then
      (next.Some? ==> next.value in k.sys.tasks) && r.sys == Dispatch(k.sys, next)
    else r.sys == k.sys
  }

  /** What the current task and the processor do by themselves. Kernel stores to kernel pages, where the stacks lie too,
      are not among it. */
  predicate OwnStep(m: R.Step) {
    !m.Switch? && !m.Quit? && !m.Spawn? && !m.Create? && (m.KernelWrite? ==> !V.KernelPage(m.p))
  }

  /** One step of the whole kernel. */
  ghost predicate StepTo(k: Kernel, st: Step, r: Kernel) {
    && C.Next(k.world, EventOf(k, st, r), r.world)
    && match st
       case Own(m) =>
         r.sched == k.sched && OwnStep(m) && R.StepTo(k.sys, m, r.sys)
       case Prepare(t, _, _, _, _) =>
         r.sched == k.sched && r.sys == k.sys && t in k.sched.state && k.sched.state[t].New?
       case Create(t, m, stack, gone) =>
         S.Legal(k.sched, S.DoCreate(t)) && r.sched == S.Create(k.sched, t) && R.StepTo(k.sys, R.Create(t, m), r.sys)
         && forall u :: u in gone ==> u !in k.sched.state
       case _ =>
         S.Inv(k.sched) && S.Legal(k.sched, OpOf(st).value) && r.sched == S.Step(k.sched, OpOf(st).value)
         && SysFollows(k, st, r)
  }

  // ----- steps of the scheduler

  /** Nobody becomes a zombie but the task that exits, and zombies stay zombies while they are in memory. */
  lemma ZombiesKept(s: S.Sched<nat>, op: S.Op<nat>, t: nat)
    requires S.Inv(s) && S.Legal(s, op) && t in s.state && !op.DoCreate?
    ensures var r := S.Step(s, op);
            t in r.state ==> (r.state[t].Zombie? <==> s.state[t].Zombie? || (op.DoExit? && s.current == Some(t)))
  {
    if s.state[t].Zombie? {
      SW.ZombieNeverRuns(s, op, t);
    } else {
      StaysAlive(s, op, t);
    }
  }

  /** A switch changes the state of nobody but the next task, which then runs. */
  lemma SwitchStates(m: S.Sched<nat>, c: nat, n: nat, t: nat)
    requires m.dead.Some? ==> m.dead.value in m.ring
    requires t in S.Switch(m, c, n).state
    ensures t == n || (t in m.state && S.Switch(m, c, n).state[t] == m.state[t])
    ensures c != n ==> n in S.Switch(m, c, n).state && S.Switch(m, c, n).state[n].Running?
  {
  }

  lemma GivenStates(q: S.Sched<nat>, c: nat, n: nat, t: nat)
    requires t in SW.Given(q, c, n).state && t in q.state
    ensures SW.Given(q, c, n).state[t].Zombie? ==> q.state[t].Zombie?
  {
  }

  lemma ScheduleAlive(s: S.Sched<nat>, t: nat)
    requires S.Inv(s) && t in s.state && !s.state[t].Zombie?
    ensures t in S.Schedule(s).state ==> !S.Schedule(s).state[t].Zombie?
  {
    if s.current.Some? && t in S.Schedule(s).state {
      var c := s.current.value;
      SW.ReapReapsSafely(s, c);
      SW.ScheduleShape(s);
      SW.GivenMoves(s, c);
      var q := S.Reap(s, c);
      GivenStates(q, c, S.NextTask(q), t);
    }
  }

  lemma BlockAlive(s: S.Sched<nat>, u: nat, t: nat)
    requires S.Inv(s) && u in s.state && t in s.state && !s.state[t].Zombie?
    ensures t in S.Block(s, u).state ==> !S.Block(s, u).state[t].Zombie?
  {
    if s.current == Some(u) && u != s.idle && t in S.Block(s, u).state {
      var m := s.(state := s.state[u := S.Blocked]);
      S.BlockKeeps(s, u);
      S.LeavingOk(s, m, u, S.Blocked);
      SwitchStates(m, u, S.NextTask(m), t);
    }
  }

  lemma ExitAlive(s: S.Sched<nat>, t: nat)
    requires S.Inv(s) && s.current.Some? && s.current != Some(s.idle) && t in s.state && !s.state[t].Zombie?
    ensures t in S.Exit(s).state ==> (S.Exit(s).state[t].Zombie? <==> s.current == Some(t))
  {
    if t in S.Exit(s).state {
      var c := s.current.value;
      var m := s.(state := s.state[c := S.Zombie], dead := Some(c));
      S.NextRuns(m);
      SwitchStates(m, c, S.NextTask(m), t);
    }
  }

  lemma StaysAlive(s: S.Sched<nat>, op: S.Op<nat>, t: nat)
    requires S.Inv(s) && S.Legal(s, op) && t in s.state && !s.state[t].Zombie? && !op.DoCreate?
    ensures var r := S.Step(s, op);
            t in r.state ==> (r.state[t].Zombie? <==> op.DoExit? && s.current == Some(t))
  {
    match op
    case DoEnqueue(u) =>
    case DoSchedule => ScheduleAlive(s, t);
    case DoBlock(u) => BlockAlive(s, u, t);
    case DoWake(u) =>
    case DoExit => ExitAlive(s, t);
  }

  /** The scheduler's part of the agreement. */
  lemma SchedFollows(s: S.Sched<nat>, op: S.Op<nat>)
    requires S.Inv(s) && s.current.Some? && S.Legal(s, op) && !op.DoCreate?
    ensures var r := S.Step(s, op);
            && S.Inv(r) && r.idle == s.idle && r.current.Some? && r.current.value in r.state
            && (forall t :: t in r.state ==> t in s.state)
            && !r.state[r.current.value].Zombie?
            && (op.DoExit? ==> r.current != s.current)
  {
    var r := S.Step(s, op);
    S.StepKeepsInv(s, op);
    SW.SameIdle(s, op);
    SW.StepReapsSafely(s, op);
    CurrentStays(s, op);
    if op.DoExit? {
      S.ExitKeeps(s);
    }
  }

  lemma CurrentStays(s: S.Sched<nat>, op: S.Op<nat>)
    requires S.Inv(s) && s.current.Some? && S.Legal(s, op) && !op.DoCreate?
    ensures S.Step(s, op).current.Some?
  {
    if op.DoSchedule? {
      SW.ScheduleShape(s);
    }
  }

  // ----- agreement

  lemma OwnKeeps(k: Kernel, st: Step, r: Kernel)
    requires Agree(k) && st.Own? && StepTo(k, st, r)
    ensures Agree(r)
  {
    R.StepKeepsInv(k.sys, st.own, r.sys);
    OwnTasks(k.sys, st.own, r.sys);
    forall t ensures TaskAgrees(r, t) && LiveAgrees(r, t) { assert TaskAgrees(k, t) && LiveAgrees(k, t); }
  }

  /** A task's own steps change neither who is current nor who has an address space. */
  lemma OwnTasks(s: Sys, m: R.Step, r: Sys)
    requires SysInv(s) && R.StepTo(s, m, r) && OwnStep(m)
    ensures r.cur == s.cur && r.tasks.Keys == s.tasks.Keys
    ensures forall t :: t in s.tasks ==> (r.tasks[t].mm == None <==> s.tasks[t].mm == None)
  {
    match m
    case Speculate(p) =>
    case Evict(p) =>
    case Touch(p, read) => TouchTasks(s, p, read, r);
    case Write(p, k, b) =>
    case KernelWrite(_, _, _, _, _) => WriteTasks(s, m, r);
    case Exec(u, env) => ExecTasks(s, u, env, r);
  }

  lemma WriteTasks(s: Sys, m: R.Step, r: Sys)
    requires SysInv(s) && R.StepTo(s, m, r) && m.KernelWrite?
    ensures r.cur == s.cur && r.tasks == s.tasks
  {
  }

  lemma TouchTasks(s: Sys, p: nat, read: Vm.Read, r: Sys)
    requires SysInv(s) && R.StepTo(s, R.Touch(p, read), r)
    ensures r.cur == s.cur && r.tasks == s.tasks
  {
  }

  lemma ExecTasks(s: Sys, u: nat, env: ExecEnv, r: Sys)
    requires SysInv(s) && R.StepTo(s, R.Exec(u, env), r)
    ensures r.cur == s.cur && r.tasks.Keys == s.tasks.Keys
    ensures forall t :: t in s.tasks ==> (r.tasks[t].mm == None <==> s.tasks[t].mm == None)
  {
    ExecveKeeps(s, u, env);
    if Execve(s, u, env).1.Replaced? {
      ExecveTasks(s, u, env);
    }
  }

  lemma ExecveTasks(s: Sys, u: nat, env: ExecEnv)
    requires CanExec(s, u, env) && HasMm(s, s.cur.value) && Execve(s, u, env).1.Replaced?
    ensures Execve(s, u, env).0.tasks.Keys == s.tasks.Keys
    ensures forall t :: t in s.tasks && t != s.cur.value ==> Execve(s, u, env).0.tasks[t] == s.tasks[t]
  {
  }

  /** The next task of the memory system, when the scheduler chose it. */
  lemma NextHasMm(k: Kernel, r: S.Sched<nat>)
    requires Agree(k) && r.idle == k.sched.idle && r.current.Some? && r.current.value in k.sched.state
    requires !k.sched.state[r.current.value].Zombie?
    ensures UserOf(r).Some? ==> UserOf(r).value in k.sys.tasks && HasMm(k.sys, UserOf(r).value)
  {
    if UserOf(r).Some? {
      assert TaskAgrees(k, r.current.value);
      assert TaskOk(k.sys, r.current.value);
    }
  }

  lemma SchedKeeps(k: Kernel, st: Step, r: Kernel)
    requires Agree(k) && StepTo(k, st, r) && OpOf(st).Some?
    ensures Agree(r)
  {
    var op := OpOf(st).value;
    SchedFollows(k.sched, op);
    var n := r.sched.current.value;
    ZombiesKept(k.sched, op, n);
    NextHasMm(k, r.sched);
    SysStepKeeps(k, st, r);
    forall t ensures LiveAgrees(r, t) {
      assert LiveAgrees(k, t) && TaskAgrees(k, t);
      LiveStill(k, st, r, t);
    }
    forall t ensures TaskAgrees(r, t) {
      assert TaskAgrees(k, t);
      if t in r.sched.state {
        ZombiesKept(k.sched, op, t);
        AgreesStill(k, st, r, t);
      }
    }
  }

  /** Only zombies leave memory, and they have no address space. */
  lemma LiveStill(k: Kernel, st: Step, r: Kernel, t: nat)
    requires S.Inv(k.sched) && LiveAgrees(k, t) && TaskAgrees(k, t)
    requires OpOf(st).Some? && S.Legal(k.sched, OpOf(st).value) && r.sched == S.Step(k.sched, OpOf(st).value)
    requires r.sched.idle == k.sched.idle
    requires st.Quit? ==> k.sys.cur.Some? && r.sys.tasks == k.sys.tasks[k.sys.cur.value := TaskMm(None, Vm.Boot)]
    requires !st.Quit? ==> r.sys.tasks == k.sys.tasks
    ensures LiveAgrees(r, t)
  {
    SW.StepReapsSafely(k.sched, OpOf(st).value);
  }

  lemma CreateAgrees(k: Kernel, st: Step, r: Kernel)
    requires Agree(k) && st.Create? && StepTo(k, st, r)
    ensures Agree(r)
  {
    S.StepKeepsInv(k.sched, S.DoCreate(st.t));
    R.CreateKeeps(k.sys, st.t, st.m, r.sys);
    CreateStacks(k, st, r);
    assert k.sched.idle in k.sched.state && k.sched.current.value in k.sched.state;
    forall t ensures TaskAgrees(r, t) && LiveAgrees(r, t) { CreatedAgrees(k, r, st.t, t); }
  }

  lemma CreatedAgrees(k: Kernel, r: Kernel, n: nat, t: nat)
    requires TaskAgrees(k, t) && LiveAgrees(k, t) && n !in k.sched.state && n != k.sched.idle
    requires r.sched == S.Create(k.sched, n) && r.sys.tasks.Keys == k.sys.tasks.Keys + {n} && HasMm(r.sys, n)
    requires forall u :: u in k.sys.tasks && u != n ==> r.sys.tasks[u] == k.sys.tasks[u]
    ensures TaskAgrees(r, t) && LiveAgrees(r, t)
  {
  }

  lemma CreateStacks(k: Kernel, st: Step, r: Kernel)
    requires Agree(k) && st.Create? && StepTo(k, st, r)
    ensures C.Placed(r.world.tasks) && r.world.cur == k.world.cur
    ensures forall t :: t in r.sched.state ==> t in r.world.tasks
  {
  }

  lemma AgreesStill(k: Kernel, st: Step, r: Kernel, t: nat)
    requires TaskAgrees(k, t) && t in k.sched.state && t in r.sched.state && r.sched.idle == k.sched.idle
    requires r.sched.state[t].Zombie? <==> k.sched.state[t].Zombie? || (st.Quit? && k.sched.current == Some(t))
    requires k.sys.cur == UserOf(k.sched)
    requires st.Quit? ==> k.sys.cur.Some? && r.sys.tasks == k.sys.tasks[k.sys.cur.value := TaskMm(None, Vm.Boot)]
    requires !st.Quit? ==> r.sys.tasks == k.sys.tasks
    ensures TaskAgrees(r, t)
  {
  }

  lemma SysStepKeeps(k: Kernel, st: Step, r: Kernel)
    requires Agree(k) && SysFollows(k, st, r) && r.sched.current.Some? && r.sched.idle == k.sched.idle
    requires UserOf(r.sched).Some? ==> HasMm(k.sys, UserOf(r.sched).value)
    ensures SysInv(r.sys) && r.sys.cur == UserOf(r.sched)
    ensures st.Quit? ==> k.sys.cur.Some? && r.sys.tasks == k.sys.tasks[k.sys.cur.value := TaskMm(None, Vm.Boot)]
    ensures !st.Quit? ==> r.sys.tasks == k.sys.tasks
  {
    if st.Quit? {
      ExitKeeps(k.sys, UserOf(r.sched));
    } else if r.sched.current != k.sched.current {
      DispatchKeeps(k.sys, UserOf(r.sched));
    }
  }

  lemma StepSameIdle(k: Kernel, st: Step, r: Kernel)
    requires Agree(k) && StepTo(k, st, r)
    ensures r.sched.idle == k.sched.idle
  {
    if OpOf(st).Some? {
      SchedFollows(k.sched, OpOf(st).value);
    }
  }

  /** Every step of the kernel keeps the three machines in agreement. */
  lemma StepKeepsAgreement(k: Kernel, st: Step, r: Kernel)
    requires Agree(k) && StepTo(k, st, r)
    ensures Agree(r) && r.sched.idle == k.sched.idle
  {
    StepSameIdle(k, st, r);
    match st
    case Own(m) => OwnKeeps(k, st, r);
    case Prepare(t, _, _, _, _) =>
      forall u ensures TaskAgrees(r, u) && LiveAgrees(r, u) { assert TaskAgrees(k, u) && LiveAgrees(k, u); }
    case Create(_, _, _, _) => CreateAgrees(k, st, r);
    case _ => SchedKeeps(k, st, r);
  }

  // ----- runs

  ghost predicate StepAt(ks: seq<Kernel>, sts: seq<Step>, i: nat)
    requires i < |sts| < |ks|
  {
    StepTo(ks[i], sts[i], ks[i + 1])
  }

  ghost predicate Run(ks: seq<Kernel>, sts: seq<Step>) {
    && |ks| == |sts| + 1 && Agree(ks[0])
    && forall i :: 0 <= i < |sts| ==> StepAt(ks, sts, i)
  }

  lemma {:induction false} RunAgrees(ks: seq<Kernel>, sts: seq<Step>, i: nat)
    requires Run(ks, sts) && i < |ks|
    ensures Agree(ks[i]) && ks[i].sched.idle == ks[0].sched.idle
  {
    if i > 0 {
      RunAgrees(ks, sts, i - 1);
      NextAgrees(ks, sts, i - 1);
    }
  }

  lemma NextAgrees(ks: seq<Kernel>, sts: seq<Step>, i: nat)
    requires i < |sts| < |ks| && StepAt(ks, sts, i) && Agree(ks[i])
    ensures Agree(ks[i + 1]) && ks[i + 1].sched.idle == ks[i].sched.idle
  {
    StepKeepsAgreement(ks[i], sts[i], ks[i + 1]);
  }

  lemma SameIdle(ks: seq<Kernel>, sts: seq<Step>, i: nat)
    requires Run(ks, sts) && i < |ks|
    ensures ks[i].sched.idle == ks[0].sched.idle
  {
    RunAgrees(ks, sts, i);
  }

  /** In every state of every run: the task that the scheduler runs is the only running one, its stack is the one in
      use, and cr3 names its directory, or the boot directory while the idle task runs. */
  lemma OneTaskRuns(ks: seq<Kernel>, sts: seq<Step>, i: nat)
    requires Run(ks, sts) && i < |ks|
    ensures var k := ks[i];
            && k.sched.current.Some? && k.world.cur == k.sched.current.value
            && (forall t :: t in k.sched.state ==> (k.sched.state[t].Running? <==> t == k.world.cur))
            && (if k.world.cur == k.sched.idle then k.sys.mach.cr3 == Vm.Boot
                else HasMm(k.sys, k.world.cur) && k.sys.mach.cr3 == k.sys.tasks[k.world.cur].cr3
                     && k.sys.mach.cr3 == Vm.Pool(k.sys.mach.mms[k.sys.tasks[k.world.cur].mm.value].pgd))
  {
    RunAgrees(ks, sts, i);
    var k := ks[i];
    if k.world.cur != k.sched.idle {
      assert TaskOk(k.sys, k.world.cur);
    }
  }

  // ----- being switched out and resumed

  /** What task t sees is the same in both states. */
  ghost predicate SameView(k: Kernel, r: Kernel, t: nat) {
    R.SameView(k.sys, r.sys, t)
  }

  /** A step while t is not current changes nothing that t sees, and neither does the step that switches t out
      without ending it. */
  lemma StepSameView(k: Kernel, st: Step, r: Kernel, t: nat)
    requires Agree(k) && StepTo(k, st, r) && t != k.sched.idle
    requires t in k.sched.state && (k.sched.current != Some(t) || (!st.Quit? && !st.Own?))
    ensures SameView(k, r, t)
  {
    match st
    case Own(m) => R.StepIsolates(k.sys, m, r.sys, t);
    case Prepare(_, _, _, _, _) =>
    case Create(u, m, _, _) => R.CreateKeeps(k.sys, u, m, r.sys);
    case _ =>
      SchedSameView(k, st, r, t);
  }

  lemma SchedSameView(k: Kernel, st: Step, r: Kernel, t: nat)
    requires Agree(k) && StepTo(k, st, r) && OpOf(st).Some? && t != k.sched.idle
    requires k.sched.current != Some(t) || !st.Quit?
    ensures SameView(k, r, t)
  {
    SchedFollows(k.sched, OpOf(st).value);
    ZombiesKept(k.sched, OpOf(st).value, r.sched.current.value);
    NextHasMm(k, r.sched);
    if st.Quit? {
      ExitKeeps(k.sys, UserOf(r.sched));
    } else if r.sched.current != k.sched.current {
      DispatchKeeps(k.sys, UserOf(r.sched));
    }
  }

  /** Over steps i to j task t is not current and no new stack is prepared for it. */
  ghost predicate Away(ks: seq<Kernel>, sts: seq<Step>, t: nat, i: nat, j: nat)
    requires i <= j <= |sts| < |ks|
  {
    forall n :: i <= n < j ==> ks[n].sched.current != Some(t) && !(sts[n].Prepare? && sts[n].t == t)
  }

  ghost predicate Alive(k: Kernel, t: nat) {
    t in k.sched.state && !k.sched.state[t].Zombie?
  }

  /** Nobody but the current task can make a task a zombie, and only zombies leave memory. */
  lemma StepKeepsAlive(k: Kernel, st: Step, r: Kernel, t: nat)
    requires Agree(k) && StepTo(k, st, r) && Alive(k, t) && (k.sched.current != Some(t) || !st.Quit?)
    ensures Alive(r, t)
  {
    if OpOf(st).Some? {
      OpKeepsAlive(k.sched, OpOf(st).value, t);
    }
  }

  lemma OpKeepsAlive(s: S.Sched<nat>, op: S.Op<nat>, t: nat)
    requires S.Inv(s) && S.Legal(s, op) && !op.DoCreate? && t in s.state && !s.state[t].Zombie?
    requires s.current != Some(t) || !op.DoExit?
    ensures var r := S.Step(s, op); t in r.state && !r.state[t].Zombie?
  {
    SW.StepReapsSafely(s, op);
    ZombiesKept(s, op, t);
  }

  lemma {:induction false} AwayAlive(ks: seq<Kernel>, sts: seq<Step>, t: nat, i: nat, j: nat)
    requires Run(ks, sts) && i <= j <= |sts| && Away(ks, sts, t, i, j) && Alive(ks[i], t)
    ensures Alive(ks[j], t)
    decreases j
  {
    if i < j {
      AwayAlive(ks, sts, t, i, j - 1);
      RunKeepsAlive(ks, sts, j - 1, t);
    }
  }

  lemma RunKeepsAlive(ks: seq<Kernel>, sts: seq<Step>, i: nat, t: nat)
    requires Run(ks, sts) && i < |sts| && Alive(ks[i], t) && (ks[i].sched.current != Some(t) || !sts[i].Quit?)
    ensures Alive(ks[i + 1], t)
  {
    RunAgrees(ks, sts, i);
    NextAlive(ks, sts, i, t);
  }

  lemma NextAlive(ks: seq<Kernel>, sts: seq<Step>, i: nat, t: nat)
    requires i < |sts| < |ks| && StepAt(ks, sts, i) && Agree(ks[i]) && Alive(ks[i], t)
    requires ks[i].sched.current != Some(t) || !sts[i].Quit?
    ensures Alive(ks[i + 1], t)
  {
    StepKeepsAlive(ks[i], sts[i], ks[i + 1], t);
  }

  lemma CurrentAlive(k: Kernel)
    requires Agree(k)
    ensures Alive(k, k.sched.current.value)
  {
  }

  lemma OutAlive(ks: seq<Kernel>, sts: seq<Step>, t: nat, i: nat, j: nat)
    requires Run(ks, sts) && OutAndBack(ks, sts, t, i, j)
    ensures Alive(ks[i], t) && Alive(ks[i + 1], t)
  {
    RunAgrees(ks, sts, i);
    CurrentAlive(ks[i]);
    RunKeepsAlive(ks, sts, i, t);
  }

  lemma {:induction false} AwaySameView(ks: seq<Kernel>, sts: seq<Step>, t: nat, i: nat, j: nat)
    requires Run(ks, sts) && i <= j <= |sts| && Away(ks, sts, t, i, j) && t != ks[0].sched.idle && Alive(ks[i], t)
    ensures SameView(ks[i], ks[j], t)
    decreases j
  {
    if i < j {
      AwaySameView(ks, sts, t, i, j - 1);
      AwayAlive(ks, sts, t, i, j - 1);
      RunStepSameView(ks, sts, j - 1, t);
      ViewTrans(ks[i], ks[j - 1], ks[j], t);
    }
  }

  lemma RunStepSameView(ks: seq<Kernel>, sts: seq<Step>, i: nat, t: nat)
    requires Run(ks, sts) && i < |sts| && t != ks[0].sched.idle && t in ks[i].sched.state
    requires ks[i].sched.current != Some(t) || (!sts[i].Quit? && !sts[i].Own?)
    ensures SameView(ks[i], ks[i + 1], t)
  {
    RunAgrees(ks, sts, i);
    assert StepAt(ks, sts, i);
    StepSameView(ks[i], sts[i], ks[i + 1], t);
  }

  /** The stacks' side of a run. */
  function Worlds(ks: seq<Kernel>): (ws: seq<C.World>)
    ensures |ws| == |ks| && forall i :: 0 <= i < |ks| ==> ws[i] == ks[i].world
  {
    if ks == [] then [] else Worlds(ks[..|ks| - 1]) + [ks[|ks| - 1].world]
  }

  ghost function Events(ks: seq<Kernel>, sts: seq<Step>, n: nat): (es: seq<C.Event>)
    requires n <= |sts| < |ks|
    ensures |es| == n && forall i :: 0 <= i < n ==> es[i] == EventOf(ks[i], sts[i], ks[i + 1])
  {
    if n == 0 then [] else Events(ks, sts, n - 1) + [EventOf(ks[n - 1], sts[n - 1], ks[n])]
  }

  lemma RunIsTrace(ks: seq<Kernel>, sts: seq<Step>)
    requires Run(ks, sts)
    ensures C.Trace(Worlds(ks), Events(ks, sts, |sts|))
  {
    forall i | 0 <= i < |sts| ensures C.StepAt(Worlds(ks), Events(ks, sts, |sts|), i) {
      assert StepAt(ks, sts, i);
    }
  }

  /** The scheduler takes the processor from t at step i, not by an exit, and gives it back for the first time at
      step j. */
  ghost predicate OutAndBack(ks: seq<Kernel>, sts: seq<Step>, t: nat, i: nat, j: nat) {
    && i < j < |sts| < |ks| && OpOf(sts[i]).Some? && !sts[i].Quit?
    && ks[i].sched.current == Some(t) && ks[i + 1].sched.current != Some(t) && Away(ks, sts, t, i + 1, j + 1)
    && ks[j + 1].sched.current == Some(t)
  }

  lemma MemoryBack(ks: seq<Kernel>, sts: seq<Step>, t: nat, i: nat, j: nat)
    requires Run(ks, sts) && OutAndBack(ks, sts, t, i, j) && t != ks[0].sched.idle
    ensures SameView(ks[i], ks[j + 1], t)
  {
    OutAlive(ks, sts, t, i, j);
    RunStepSameView(ks, sts, i, t);
    AwaySameView(ks, sts, t, i + 1, j + 1);
    ViewTrans(ks[i], ks[i + 1], ks[j + 1], t);
  }

  lemma ViewTrans(k: Kernel, q: Kernel, r: Kernel, t: nat)
    requires SameView(k, q, t) && SameView(q, r, t)
    ensures SameView(k, r, t)
  {
  }

  lemma AwaySuspended(ks: seq<Kernel>, sts: seq<Step>, t: nat, i: nat, j: nat)
    requires Run(ks, sts) && i <= j <= |sts| && Away(ks, sts, t, i, j) && Alive(ks[i], t)
    ensures C.Suspended(Worlds(ks), Events(ks, sts, |sts|), t, i, j)
  {
    var ws, es := Worlds(ks), Events(ks, sts, |sts|);
    forall n | i <= n < j ensures ws[n].cur != t && !(es[n].Prepare? && es[n].t == t) && !C.Renews(es[n], t) {
      AwayAlive(ks, sts, t, i, n);
      AwayEvent(ks, sts, t, n);
    }
  }

  lemma RunCurrent(ks: seq<Kernel>, sts: seq<Step>, i: nat)
    requires Run(ks, sts) && i < |ks|
    ensures ks[i].sched.current == Some(ks[i].world.cur)
  {
    RunAgrees(ks, sts, i);
  }

  /** A step while t is away and alive leaves its stack to it. */
  lemma AwayEvent(ks: seq<Kernel>, sts: seq<Step>, t: nat, n: nat)
    requires Run(ks, sts) && n < |sts| && Away(ks, sts, t, n, n + 1) && Alive(ks[n], t)
    ensures ks[n].world.cur != t
    ensures var e := EventOf(ks[n], sts[n], ks[n + 1]); !(e.Prepare? && e.t == t) && !C.Renews(e, t)
  {
    RunCurrent(ks, sts, n);
    if sts[n].Create? {
      assert StepAt(ks, sts, n);
      CreateSpares(ks[n], sts[n], ks[n + 1], t);
    }
  }

  lemma CreateSpares(k: Kernel, st: Step, r: Kernel, t: nat)
    requires StepTo(k, st, r) && st.Create? && Alive(k, t)
    ensures st.t != t && t !in st.gone
  {
  }

  /** A step of the scheduler that changes the current task is a switch of stacks. */
  lemma SwitchEvent(ks: seq<Kernel>, sts: seq<Step>, i: nat)
    requires Run(ks, sts) && i < |sts| && ks[i + 1].sched.current != ks[i].sched.current
    ensures ks[i + 1].sched.current.Some?
    ensures Events(ks, sts, |sts|)[i] == C.Switch(ks[i + 1].sched.current.value)
  {
    RunAgrees(ks, sts, i + 1);
    assert StepAt(ks, sts, i);
  }

  lemma RegistersBack(ks: seq<Kernel>, sts: seq<Step>, t: nat, i: nat, j: nat)
    requires Run(ks, sts) && OutAndBack(ks, sts, t, i, j)
    ensures C.Resumes(ks[i].world, ks[j + 1].world)
  {
    RunIsTrace(ks, sts);
    OutAlive(ks, sts, t, i, j);
    AwaySuspended(ks, sts, t, i + 1, j);
    SwitchEvent(ks, sts, i);
    SwitchEvent(ks, sts, j);
    RunAgrees(ks, sts, i);
    C.SwitchRestores(Worlds(ks), Events(ks, sts, |sts|), t, i, j);
  }

  /** A task that the scheduler switches out and later runs again finds its registers, its stack and every byte of
      its memory as it left them, with its own directory in cr3, whatever ran in between. */
  lemma ResumedAsLeft(ks: seq<Kernel>, sts: seq<Step>, t: nat, i: nat, j: nat)
    requires Run(ks, sts) && OutAndBack(ks, sts, t, i, j) && t != ks[0].sched.idle
    ensures C.Resumes(ks[i].world, ks[j + 1].world)
    ensures SameView(ks[i], ks[j + 1], t)
    ensures HasMm(ks[j + 1].sys, t) && ks[j + 1].sys.mach.cr3 == ks[j + 1].sys.tasks[t].cr3
  {
    RegistersBack(ks, sts, t, i, j);
    MemoryBack(ks, sts, t, i, j);
    RunsOwnDirectory(ks, sts, t, j + 1);
  }

  // ----- the first switch

  lemma NewIsAway(k: Kernel, st: Step, r: Kernel)
    requires Agree(k) && StepTo(k, st, r) && st.Prepare?
    ensures Alive(k, st.t) && st.t != k.sched.idle && k.sched.current != Some(st.t)
    ensures r.sched == k.sched && r.sys == k.sys
    ensures EventOf(k, st, r) == C.Prepare(st.t, st.code, st.entry, st.eflags, st.userEsp)
  {
  }

  /** The stack of t is prepared at step i, and the scheduler runs t for the first time at step j. */
  ghost predicate FirstRun(ks: seq<Kernel>, sts: seq<Step>, t: nat, i: nat, j: nat) {
    && i < j < |sts| < |ks| && sts[i].Prepare? && sts[i].t == t
    && Away(ks, sts, t, i + 1, j + 1) && ks[j + 1].sched.current == Some(t)
  }

  lemma PreparedAway(ks: seq<Kernel>, sts: seq<Step>, t: nat, i: nat, j: nat)
    requires Run(ks, sts) && FirstRun(ks, sts, t, i, j)
    ensures Alive(ks[i + 1], t) && t != ks[0].sched.idle && SameView(ks[i], ks[i + 1], t)
    ensures Events(ks, sts, |sts|)[i] == C.Prepare(t, sts[i].code, sts[i].entry, sts[i].eflags, sts[i].userEsp)
  {
    RunAgrees(ks, sts, i);
    assert StepAt(ks, sts, i);
    NewIsAway(ks[i], sts[i], ks[i + 1]);
  }

  lemma FirstRunStack(ks: seq<Kernel>, sts: seq<Step>, t: nat, i: nat, j: nat)
    requires Run(ks, sts) && FirstRun(ks, sts, t, i, j)
    ensures ks[j + 1].world.regs.eip == sts[i].code.enterUserTask
    ensures C.Entered(ks[j + 1].world.mem, ks[j + 1].world.regs.esp)
         == C.UserState(sts[i].entry, C.USER_CODE, sts[i].eflags, sts[i].userEsp, C.USER_DATA, C.USER_DATA)
  {
    PreparedAway(ks, sts, t, i, j);
    RunIsTrace(ks, sts);
    AwaySuspended(ks, sts, t, i + 1, j);
    SwitchEvent(ks, sts, j);
    C.FirstSwitchEntersUser(Worlds(ks), Events(ks, sts, |sts|), t, i, j);
  }

  lemma FirstRunMemory(ks: seq<Kernel>, sts: seq<Step>, t: nat, i: nat, j: nat)
    requires Run(ks, sts) && FirstRun(ks, sts, t, i, j)
    ensures SameView(ks[i], ks[j + 1], t) && t != ks[0].sched.idle
  {
    PreparedAway(ks, sts, t, i, j);
    AwaySameView(ks, sts, t, i + 1, j + 1);
    ViewTrans(ks[i], ks[i + 1], ks[j + 1], t);
  }

  /** A task with a prepared stack, when the scheduler first runs it: switch_to lands in enter_user_task, which returns
      to user mode with exactly the prepared state, with the task's own directory in cr3 and every byte of its
      memory as it was. */
  lemma FirstRunEntersUser(ks: seq<Kernel>, sts: seq<Step>, t: nat, i: nat, j: nat)
    requires Run(ks, sts) && FirstRun(ks, sts, t, i, j)
    ensures ks[j + 1].world.regs.eip == sts[i].code.enterUserTask
    ensures C.Entered(ks[j + 1].world.mem, ks[j + 1].world.regs.esp)
         == C.UserState(sts[i].entry, C.USER_CODE, sts[i].eflags, sts[i].userEsp, C.USER_DATA, C.USER_DATA)
    ensures HasMm(ks[j + 1].sys, t) && ks[j + 1].sys.mach.cr3 == ks[j + 1].sys.tasks[t].cr3
    ensures SameView(ks[i], ks[j + 1], t)
  {
    FirstRunStack(ks, sts, t, i, j);
    FirstRunMemory(ks, sts, t, i, j);
    RunsOwnDirectory(ks, sts, t, j + 1);
  }

  lemma RunsOwnDirectory(ks: seq<Kernel>, sts: seq<Step>, t: nat, i: nat)
    requires Run(ks, sts) && i < |ks| && ks[i].sched.current == Some(t) && t != ks[0].sched.idle
    ensures HasMm(ks[i].sys, t) && ks[i].sys.mach.cr3 == ks[i].sys.tasks[t].cr3
  {
    SameIdle(ks, sts, i);
    OneTaskRuns(ks, sts, i);
  }

  // ----- boot

  /** The first task: created and enqueued by the boot code, its image loaded, its directory in cr3. */
  lemma FirstTaskAgrees(idle: nat, ram: seq<seq<Byte>>, t: nat, m: nat, env: ExecEnv, sys: Sys, world: C.World)
    requires t != idle && |ram| == Vm.FRAMES && (forall f :: 0 <= f < Vm.FRAMES ==> |ram[f]| == Vm.PAGE)
    requires R.StepTo(R.Booted(ram), R.Spawn(t, m, env), sys)
    requires C.Placed(world.tasks) && world.cur == t && t in world.tasks && idle in world.tasks
    ensures var s := S.Create(S.Booted(idle), t); S.Inv(s) && Agree(Kernel(S.Enqueue(s, t), sys, world))
  {
    FirstTaskRuns(idle, t);
    FirstTaskLoaded(ram, t, m, env, sys);
    AgreeFrom(S.Enqueue(S.Create(S.Booted(idle), t), t), sys, world, t);
  }

  lemma AgreeFrom(sched: S.Sched<nat>, sys: Sys, world: C.World, t: nat)
    requires S.Inv(sched) && sched.current == Some(t) && t != sched.idle
    requires sched.state == map[sched.idle := S.Ready, t := S.Running]
    requires SysInv(sys) && sys.cur == Some(t) && t in sys.tasks && sys.tasks[t].mm.Some?
    requires sys.tasks.Keys == {t}
    requires C.Placed(world.tasks) && world.cur == t && t in world.tasks && sched.idle in world.tasks
    ensures Agree(Kernel(sched, sys, world))
  {
    forall u ensures TaskAgrees(Kernel(sched, sys, world), u) && LiveAgrees(Kernel(sched, sys, world), u) {}
  }

  lemma FirstTaskLoaded(ram: seq<seq<Byte>>, t: nat, m: nat, env: ExecEnv, r: Sys)
    requires |ram| == Vm.FRAMES && (forall f :: 0 <= f < Vm.FRAMES ==> |ram[f]| == Vm.PAGE)
    requires R.StepTo(R.Booted(ram), R.Spawn(t, m, env), r)
    ensures SysInv(r) && r.cur == Some(t) && r.tasks.Keys == {t} && r.tasks[t].mm == Some(m)
  {
    R.BootedInv(ram);
    R.SpawnKeeps(R.Booted(ram), t, m, env, r);
    SpawnedTasks(R.Booted(ram), t, m, env, r);
  }

  lemma SpawnedTasks(s: Sys, t: nat, m: nat, env: ExecEnv, r: Sys)
    requires R.StepTo(s, R.Spawn(t, m, env), r)
    ensures r.cur == Some(t) && r.tasks.Keys == s.tasks.Keys + {t} && r.tasks[t].mm == Some(m)
  {
  }

  lemma FirstTaskRuns(idle: nat, t: nat)
    requires t != idle
    ensures var s := S.Create(S.Booted(idle), t);
            && S.Inv(s) && S.Inv(S.Enqueue(s, t)) && S.Enqueue(s, t).current == Some(t) && S.Enqueue(s, t).idle == idle
            && S.Enqueue(s, t).state == map[idle := S.Ready, t := S.Running]
  {
    S.StepKeepsInv(S.Booted(idle), S.DoCreate(t));
    S.EnqueueKeeps(S.Create(S.Booted(idle), t), t);
  }
}
