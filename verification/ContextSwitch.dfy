/** The stack-swapping context switch, instruction by instruction, and what it guarantees to a task that
    is switched out and later resumed while other tasks run on their own stacks. */
module ContextSwitch {

  /** Byte offset of kernel_esp inside a task struct. */
  const KERNEL_ESP: nat := 28
  const USER_CODE: nat := 0x18 + 3
  const USER_DATA: nat := 0x20 + 3

  /** A word at each address. */
  type Memory = map<nat, nat>

  function Peek(m: Memory, a: nat): nat {
    if a in m then m[a] else 0
  }

  datatype Regs = Regs(ebp: nat, ebx: nat, esi: nat, edi: nat, esp: nat, eip: nat)

  datatype Stack = Stack(base: nat, top: nat) {
    predicate Holds(a: nat) { base <= a < top }
  }

  /** tasks gives the kernel stack of every task, by the address of its struct. */
  datatype World = World(regs: Regs, mem: Memory, cur: nat, tasks: map<nat, Stack>)

  // ----- the instructions

  /** Code addresses that the model only compares. */
  datatype Code = Code(enterUserTask: nat)

  class Machine {
    var eax: nat
    var regs: Regs
    var mem: Memory

    method Push(v: nat)
      requires regs.esp >= 4
      modifies this`regs, this`mem
      ensures regs == old(regs).(esp := old(regs).esp - 4) && mem == old(mem)[regs.esp := v]
    {
      regs := regs.(esp := regs.esp - 4);
      mem := mem[regs.esp := v];
    }

    method Pop() returns (v: nat)
      modifies this`regs
      ensures regs == old(regs).(esp := old(regs).esp + 4) && v == Peek(mem, old(regs).esp)
    {
      v := Peek(mem, regs.esp);
      regs := regs.(esp := regs.esp + 4);
    }

    method SaveFrame()
      requires regs.esp >= 16
      modifies this`regs, this`mem
      ensures regs == old(regs).(esp := old(regs).esp - 16)
      ensures mem == Saved(old(mem), old(regs))
    {
      Push(regs.ebp);
      Push(regs.ebx);
      Push(regs.esi);
      Push(regs.edi);
    }

    method LoadFrame()
      modifies this`regs
      ensures regs == Loaded(mem, old(regs).esp)
    {
      var edi := Pop();
      var esi := Pop();
      var ebx := Pop();
      var ebp := Pop();
      var eip := Pop();
      regs := Regs(ebp, ebx, esi, edi, regs.esp, eip);
    }

    /** The first half: the frame, and the stack pointer in the task that leaves. */
    method SwitchOut()
      requires regs.esp >= 16
      modifies this
      ensures regs == old(regs).(esp := old(regs).esp - 16)
      ensures mem == SwitchedOut(old(regs), old(mem), Peek(old(mem), old(regs).esp + 4))
    {
      ghost var r, m := regs, mem;
      SaveFrame();
      SavedAbove(m, r, r.esp + 4);
      eax := Peek(mem, regs.esp + 20);
      mem := mem[eax + KERNEL_ESP := regs.esp];
    }

    /** switch_to: called with the two task addresses above the return address. */
    method SwitchTo()
      requires regs.esp >= 16
      requires Peek(mem, regs.esp + 4) + KERNEL_ESP != regs.esp + 8
      modifies this
      ensures var (r, m) := (old(regs), old(mem));
              (regs, mem) == Swap(r, m, Peek(m, r.esp + 4), Peek(m, r.esp + 8))
    {
      ghost var r, m := regs, mem;
      SwitchOut();
      SavedAbove(m, r, r.esp + 8);
      eax := Peek(mem, regs.esp + 24);
      regs := regs.(esp := Peek(mem, eax + KERNEL_ESP));
      LoadFrame();
    }

    /** One push through the stack variable of prepare_user_task_stack. */
    method Lay(stack: nat, v: nat, ghost m: Memory, ghost top: nat, ghost ws: seq<nat>)
      returns (next: nat, ghost words: seq<nat>)
      requires stack >= 4 && stack + 4 * |ws| == top && mem == Laid(m, top, ws)
      modifies this`mem
      ensures next == stack - 4 && words == ws + [v] && mem == Laid(m, top, words)
    {
      next := stack - 4;
      mem := mem[next := v];
      words := ws + [v];
      assert words[..|ws|] == ws;
    }

    /** prepare_user_task_stack: eleven words pushed downwards from the top of the stack. */
    method PrepareUserTaskStack(task: nat, top: nat, code: Code, entry: nat, eflags: nat, userEsp: nat)
      requires top >= 44 && !(top - 44 <= task + KERNEL_ESP < top)
      modifies this`mem
      ensures mem == Prepared(old(mem), task, top, code, entry, eflags, userEsp)
    {
      ghost var m, ws := mem, [];
      var stack;
      stack, ws := Lay(top, USER_DATA, m, top, ws);
      stack, ws := Lay(stack, userEsp, m, top, ws);
      stack, ws := Lay(stack, eflags, m, top, ws);
      stack, ws := Lay(stack, USER_CODE, m, top, ws);
      stack, ws := Lay(stack, entry, m, top, ws);
      assert ws == UserWords(entry, eflags, userEsp);
      stack, ws := Lay(stack, 0, m, top, ws);
      stack, ws := Lay(stack, code.enterUserTask, m, top, ws);
      stack, ws := Lay(stack, 0, m, top, ws);
      stack, ws := Lay(stack, 0, m, top, ws);
      stack, ws := Lay(stack, 0, m, top, ws);
      stack, ws := Lay(stack, 0, m, top, ws);
      assert ws == UserWords(entry, eflags, userEsp) + SwitchWords(code);
      mem := mem[task + KERNEL_ESP := stack];
    }

    /** enter_user_task: loads the data segments from the fifth argument, then returns to user mode. */
    method EnterUserTask() returns (user: UserState)
      modifies this
      ensures user == Entered(old(mem), old(regs).esp)
    {
      eax := Peek(mem, regs.esp + 20);
      var ds := eax;
      regs := regs.(esp := regs.esp + 4);
      var eip := Pop();
      var cs := Pop();
      var eflags := Pop();
      var esp := Pop();
      var ss := Pop();
      user := UserState(eip, cs, eflags, esp, ss, ds);
    }
  }

  datatype UserState = UserState(eip: nat, cs: nat, eflags: nat, esp: nat, ss: nat, ds: nat)

  function Entered(m: Memory, esp: nat): UserState {
    var ss := Peek(m, esp + 20);
    UserState(Peek(m, esp + 4), Peek(m, esp + 8), Peek(m, esp + 12), Peek(m, esp + 16), ss, ss)
  }

  function Saved(m: Memory, r: Regs): Memory
    requires r.esp >= 16
  {
    m[r.esp - 4 := r.ebp][r.esp - 8 := r.ebx][r.esp - 12 := r.esi][r.esp - 16 := r.edi]
  }

  lemma SavedAbove(m: Memory, r: Regs, a: nat)
    requires 16 <= r.esp <= a
    ensures Peek(Saved(m, r), a) == Peek(m, a)
  {
  }

  function Loaded(m: Memory, k: nat): Regs {
    Regs(Peek(m, k + 12), Peek(m, k + 8), Peek(m, k + 4), Peek(m, k), k + 20, Peek(m, k + 16))
  }

  /** Memory after the first half of switch_to. */
  function SwitchedOut(r: Regs, m: Memory, prev: nat): Memory
    requires r.esp >= 16
  {
    Saved(m, r)[prev + KERNEL_ESP := r.esp - 16]
  }

  /** Registers and memory after switch_to(prev, next). */
  function Swap(r: Regs, m: Memory, prev: nat, next: nat): (Regs, Memory)
    requires r.esp >= 16
  {
    var m' := SwitchedOut(r, m, prev);
    (Loaded(m', Peek(m', next + KERNEL_ESP)), m')
  }

  function Prepared(m: Memory, task: nat, top: nat, code: Code, entry: nat, eflags: nat, userEsp: nat): Memory
    requires top >= 44
  {
    Laid(m, top, UserWords(entry, eflags, userEsp) + SwitchWords(code))[task + KERNEL_ESP := top - 44]
  }

  /** The words for iret, from the top down. */
  function UserWords(entry: nat, eflags: nat, userEsp: nat): seq<nat> {
    [USER_DATA, userEsp, eflags, USER_CODE, entry]
  }

  /** The words below them: a return address for enter_user_task, and a frame for switch_to. */
  function SwitchWords(code: Code): seq<nat> {
    [0, code.enterUserTask, 0, 0, 0, 0]
  }

  /** Memory after pushing the words downwards from top. */
  function Laid(m: Memory, top: nat, ws: seq<nat>): Memory
    requires top >= 4 * |ws|
  {
    if ws == [] then m else Laid(m, top, ws[..|ws| - 1])[top - 4 * |ws| := ws[|ws| - 1]]
  }

  lemma {:induction false} LaidAt(m: Memory, top: nat, ws: seq<nat>, i: nat)
    requires top >= 4 * |ws| && i < |ws|
    ensures Peek(Laid(m, top, ws), top - 4 * (i + 1)) == ws[i]
    decreases |ws|
  {
    if i < |ws| - 1 {
      LaidAt(m, top, ws[..|ws| - 1], i);
    }
  }

  lemma {:induction false} LaidElsewhere(m: Memory, top: nat, ws: seq<nat>, a: nat)
    requires top >= 4 * |ws| && !(top - 4 * |ws| <= a < top)
    ensures Peek(Laid(m, top, ws), a) == Peek(m, a)
    decreases |ws|
  {
    if ws != [] {
      LaidElsewhere(m, top, ws[..|ws| - 1], a);
    }
  }

  lemma LaidLoads(m: Memory, top: nat, ws: seq<nat>, code: Code)
    requires |ws| == 11 && top >= 44 && ws[5..] == SwitchWords(code)
    ensures Loaded(Laid(m, top, ws), top - 44) == Regs(0, 0, 0, 0, top - 24, code.enterUserTask)
  {
    assert forall i :: 5 <= i < 11 ==> ws[i] == SwitchWords(code)[i - 5];
    LaidAt(m, top, ws, 10);
    LaidAt(m, top, ws, 9);
    LaidAt(m, top, ws, 8);
    LaidAt(m, top, ws, 7);
    LaidAt(m, top, ws, 6);
  }

  lemma LaidEnters(m: Memory, top: nat, ws: seq<nat>, entry: nat, eflags: nat, userEsp: nat)
    requires |ws| == 11 && top >= 44 && ws[..5] == UserWords(entry, eflags, userEsp)
    ensures Entered(Laid(m, top, ws), top - 24) == UserState(entry, USER_CODE, eflags, userEsp, USER_DATA, USER_DATA)
  {
    assert forall i :: 0 <= i < 5 ==> ws[i] == UserWords(entry, eflags, userEsp)[i];
    LaidAt(m, top, ws, 4);
    LaidAt(m, top, ws, 3);
    LaidAt(m, top, ws, 2);
    LaidAt(m, top, ws, 1);
    LaidAt(m, top, ws, 0);
  }

  /** What switch_to and enter_user_task find in a prepared stack. */
  lemma PreparedReads(m: Memory, task: nat, top: nat, code: Code, entry: nat, eflags: nat, userEsp: nat)
    requires top >= 44 && !(top - 44 <= task + KERNEL_ESP < top)
    ensures var p := Prepared(m, task, top, code, entry, eflags, userEsp);
            && Peek(p, task + KERNEL_ESP) == top - 44
            && Loaded(p, top - 44) == Regs(0, 0, 0, 0, top - 24, code.enterUserTask)
            && Entered(p, top - 24) == UserState(entry, USER_CODE, eflags, userEsp, USER_DATA, USER_DATA)
  {
    var ws := UserWords(entry, eflags, userEsp) + SwitchWords(code);
    LaidLoads(m, top, ws, code);
    LaidEnters(m, top, ws, entry, eflags, userEsp);
    ElsewhereSame(Laid(m, top, ws), task + KERNEL_ESP, top - 44, top - 44);
  }

  /** A word outside the frames changes nothing in them. */
  lemma ElsewhereSame(m: Memory, a: nat, v: nat, k: nat)
    requires !(k <= a < k + 44)
    ensures Loaded(m[a := v], k) == Loaded(m, k)
    ensures Entered(m[a := v], k + 20) == Entered(m, k + 20)
  {
  }

  // ----- worlds

  /** Stacks are disjoint, and no stack contains the kernel_esp word of any task. */
  ghost predicate Placed(tasks: map<nat, Stack>) {
    && (forall t, u, a :: t in tasks && u in tasks && tasks[t].Holds(a) && tasks[u].Holds(a) ==> t == u)
    && (forall t, u :: t in tasks && u in tasks ==> !tasks[t].Holds(u + KERNEL_ESP))
  }

  /** m and m' agree on the stack of t and on its saved stack pointer. */
  ghost predicate Untouched(t: nat, s: Stack, m: Memory, m': Memory) {
    && Peek(m', t + KERNEL_ESP) == Peek(m, t + KERNEL_ESP)
    && forall a :: s.Holds(a) ==> Peek(m', a) == Peek(m, a)
  }

  datatype Event =
    | Work                     // the current task runs: any registers, any memory but other tasks' stacks
    | Switch(next: nat)        // the current task calls switch_to
    | Prepare(t: nat, code: Code, entry: nat, eflags: nat, userEsp: nat)
    | Create(t: nat, stack: Stack, gone: set<nat>)   // create_task; the memory of the tasks gone may be used again

  /** The current task is about to execute switch_to, called with itself and next as arguments. */
  ghost predicate Calling(w: World, next: nat) {
    && w.cur in w.tasks && next in w.tasks && next != w.cur
    && w.tasks[w.cur].base + 16 <= w.regs.esp && w.regs.esp + 12 <= w.tasks[w.cur].top
    && Peek(w.mem, w.regs.esp + 4) == w.cur && Peek(w.mem, w.regs.esp + 8) == next
  }

  function TasksAfter(tasks: map<nat, Stack>, e: Event): map<nat, Stack> {
    if e.Create? then (tasks - e.gone)[e.t := e.stack] else tasks
  }

  /** The stack of t is given up or taken anew. */
  predicate Renews(e: Event, t: nat) {
    e.Create? && (e.t == t || t in e.gone)
  }

  ghost predicate Next(w: World, e: Event, w': World) {
    && w'.tasks == TasksAfter(w.tasks, e)
    && match e
       case Work =>
         && w'.cur == w.cur
         && forall t :: t in w.tasks && t != w.cur ==> Untouched(t, w.tasks[t], w.mem, w'.mem)
       case Switch(next) =>
         && Calling(w, next) && w'.cur == next
         && (w'.regs, w'.mem) == Swap(w.regs, w.mem, w.cur, next)
       case Prepare(t, code, entry, eflags, userEsp) =>
         && t in w.tasks && t != w.cur && w.tasks[t].base + 44 <= w.tasks[t].top
         && w'.cur == w.cur && w'.regs == w.regs
         && w'.mem == Prepared(w.mem, t, w.tasks[t].top, code, entry, eflags, userEsp)
       case Create(t, stack, gone) =>
         && w'.cur == w.cur && t !in w.tasks - gone && !Renews(e, w.cur) && Placed(w'.tasks)
         && forall u :: u in w.tasks && u != w.cur && !Renews(e, u) ==> Untouched(u, w.tasks[u], w.mem, w'.mem)
  }

  /** The trace follows the events one by one. */
  ghost predicate Trace(ws: seq<World>, es: seq<Event>) {
    && |ws| == |es| + 1 && Placed(ws[0].tasks)
    && forall i :: 0 <= i < |es| ==> StepAt(ws, es, i)
  }

  ghost predicate StepAt(ws: seq<World>, es: seq<Event>, i: nat)
    requires i < |es| < |ws|
  {
    Next(ws[i], es[i], ws[i + 1])
  }

  lemma {:induction false} StaysPlaced(ws: seq<World>, es: seq<Event>, i: nat)
    requires Trace(ws, es) && i < |ws|
    ensures Placed(ws[i].tasks)
  {
    if i > 0 {
      StaysPlaced(ws, es, i - 1);
      assert StepAt(ws, es, i - 1);
    }
  }

  /** A step in which t is not the current task and is not prepared leaves its stack and saved pointer alone. */
  lemma StepSpares(w: World, e: Event, w': World, t: nat)
    requires Next(w, e, w') && Placed(w.tasks) && t in w.tasks && t != w.cur
    requires !(e.Prepare? && e.t == t) && !Renews(e, t)
    ensures t in w'.tasks && w'.tasks[t] == w.tasks[t]
    ensures Untouched(t, w.tasks[t], w.mem, w'.mem)
  {
    match e
    case Work =>
    case Switch(next) =>
      SwapSpares(w, t, next);
    case Prepare(u, code, entry, eflags, userEsp) =>
      PrepareSpares(w, t, u, UserWords(entry, eflags, userEsp) + SwitchWords(code));
    case Create(_, _, _) =>
  }

  lemma SwapSpares(w: World, t: nat, next: nat)
    requires Placed(w.tasks) && Calling(w, next) && t in w.tasks && t != w.cur
    ensures Untouched(t, w.tasks[t], w.mem, Swap(w.regs, w.mem, w.cur, next).1)
  {
    var s := w.tasks[w.cur];
    assert s.Holds(w.regs.esp - 4) && s.Holds(w.regs.esp - 8) && s.Holds(w.regs.esp - 12) && s.Holds(w.regs.esp - 16);
  }

  lemma PrepareSpares(w: World, t: nat, u: nat, ws: seq<nat>)
    requires Placed(w.tasks) && t in w.tasks && u in w.tasks && t != u && |ws| == 11
    requires w.tasks[u].base + 44 <= w.tasks[u].top
    ensures forall a :: a == t + KERNEL_ESP || w.tasks[t].Holds(a) ==>
              Peek(Laid(w.mem, w.tasks[u].top, ws), a) == Peek(w.mem, a)
  {
    var top := w.tasks[u].top;
    forall a | a == t + KERNEL_ESP || w.tasks[t].Holds(a) ensures Peek(Laid(w.mem, top, ws), a) == Peek(w.mem, a) {
      assert top - 44 <= a < top ==> w.tasks[u].Holds(a);
      LaidElsewhere(w.mem, top, ws, a);
    }
  }

  /** t is neither current nor prepared nor created in any of the states i..j of the trace (j excluded). */
  ghost predicate Suspended(ws: seq<World>, es: seq<Event>, t: nat, i: nat, j: nat)
    requires i <= j <= |es| < |ws|
  {
    forall k :: i <= k < j ==> ws[k].cur != t && !(es[k].Prepare? && es[k].t == t) && !Renews(es[k], t)
  }

  lemma {:induction false} StackSurvives(ws: seq<World>, es: seq<Event>, t: nat, i: nat, j: nat)
    requires Trace(ws, es) && i <= j < |ws| && t in ws[i].tasks && Suspended(ws, es, t, i, j)
    ensures t in ws[j].tasks && ws[j].tasks[t] == ws[i].tasks[t]
    ensures Untouched(t, ws[i].tasks[t], ws[i].mem, ws[j].mem)
    decreases j
  {
    if i < j {
      StackSurvives(ws, es, t, i, j - 1);
      StaysPlaced(ws, es, j - 1);
      assert StepAt(ws, es, j - 1);
      StepSpares(ws[j - 1], es[j - 1], ws[j], t);
    }
  }

  ghost predicate Within(s: Stack, lo: nat, hi: nat) {
    s.base <= lo && hi <= s.top
  }

  lemma LoadedSame(t: nat, s: Stack, m: Memory, m': Memory, k: nat)
    requires Untouched(t, s, m, m') && Within(s, k, k + 20)
    ensures Loaded(m', k) == Loaded(m, k)
  {
    assert s.Holds(k) && s.Holds(k + 4) && s.Holds(k + 8) && s.Holds(k + 12) && s.Holds(k + 16);
  }

  lemma EnteredSame(t: nat, s: Stack, m: Memory, m': Memory, k: nat)
    requires Untouched(t, s, m, m') && Within(s, k, k + 24)
    ensures Entered(m', k) == Entered(m, k)
  {
    assert s.Holds(k + 4) && s.Holds(k + 8) && s.Holds(k + 12) && s.Holds(k + 16) && s.Holds(k + 20);
  }

  lemma SavedLoads(m: Memory, r: Regs)
    requires r.esp >= 16
    ensures Loaded(Saved(m, r), r.esp - 16) == Regs(r.ebp, r.ebx, r.esi, r.edi, r.esp + 4, Peek(m, r.esp))
    ensures forall a :: r.esp <= a ==> Peek(Saved(m, r), a) == Peek(m, a)
  {
  }

  /** A word outside the stack changes nothing on it. */
  lemma OutsideSame(t: nat, s: Stack, m: Memory, a: nat, v: nat, k: nat)
    requires !s.Holds(a) && Within(s, k, k + 20)
    ensures Loaded(m[a := v], k) == Loaded(m, k)
    ensures forall x :: s.Holds(x) ==> Peek(m[a := v], x) == Peek(m, x)
  {
    assert s.Holds(k) && s.Holds(k + 4) && s.Holds(k + 8) && s.Holds(k + 12) && s.Holds(k + 16);
  }

  lemma SwitchSaves(w: World, next: nat, w': World)
    requires Next(w, Switch(next), w') && Placed(w.tasks)
    ensures var s, m := w.tasks[w.cur], Saved(w.mem, w.regs);
            && Peek(w'.mem, w.cur + KERNEL_ESP) == w.regs.esp - 16
            && Loaded(w'.mem, w.regs.esp - 16) == Loaded(m, w.regs.esp - 16)
            && forall a :: s.Holds(a) ==> Peek(w'.mem, a) == Peek(m, a)
  {
    OutsideSame(w.cur, w.tasks[w.cur], Saved(w.mem, w.regs), w.cur + KERNEL_ESP, w.regs.esp - 16, w.regs.esp - 16);
  }

  lemma SwitchLoads(w: World, next: nat, w': World)
    requires Next(w, Switch(next), w') && Placed(w.tasks)
    requires var k := Peek(w.mem, next + KERNEL_ESP); Within(w.tasks[next], k, k + 20)
    ensures w'.regs == Loaded(w.mem, Peek(w.mem, next + KERNEL_ESP))
    ensures Untouched(next, w.tasks[next], w.mem, w'.mem)
  {
    StepSpares(w, Switch(next), w', next);
    LoadedSame(next, w.tasks[next], w.mem, w'.mem, Peek(w.mem, next + KERNEL_ESP));
  }

  /** After switching back, the callee-saved registers, the stack pointer, the return address and the
      live part of the stack are those of the call to switch_to in w. */
  ghost predicate Resumes(w: World, w': World) {
    && w'.regs == Regs(w.regs.ebp, w.regs.ebx, w.regs.esi, w.regs.edi, w.regs.esp + 4, Peek(w.mem, w.regs.esp))
    && w.cur in w.tasks
    && forall a :: w.regs.esp <= a < w.tasks[w.cur].top ==> Peek(w'.mem, a) == Peek(w.mem, a)
  }

  /** The memory m holds, on the stack s of t, the frame of a task that called switch_to in w. */
  ghost predicate Parked(w: World, t: nat, s: Stack, m: Memory) {
    && w.regs.esp >= 16 && Within(s, w.regs.esp - 16, w.regs.esp + 4)
    && Peek(m, t + KERNEL_ESP) == w.regs.esp - 16
    && Loaded(m, w.regs.esp - 16)
         == Regs(w.regs.ebp, w.regs.ebx, w.regs.esi, w.regs.edi, w.regs.esp + 4, Peek(w.mem, w.regs.esp))
    && forall a :: w.regs.esp <= a && s.Holds(a) ==> Peek(m, a) == Peek(w.mem, a)
  }

  lemma SwitchParks(w: World, e: Event, w1: World)
    requires Placed(w.tasks) && e.Switch? && Next(w, e, w1) && w.cur in w.tasks
    ensures Parked(w, w.cur, w.tasks[w.cur], w1.mem)
  {
    SwitchSaves(w, e.next, w1);
    SavedLoads(w.mem, w.regs);
  }

  lemma SwitchBack(w: World, m: Memory, v: World, v1: World)
    requires Placed(v.tasks) && w.cur in w.tasks && w.cur in v.tasks && v.tasks[w.cur] == w.tasks[w.cur]
    requires Parked(w, w.cur, w.tasks[w.cur], m) && Next(v, Switch(w.cur), v1)
    requires Untouched(w.cur, w.tasks[w.cur], m, v.mem)
    ensures Resumes(w, v1)
  {
    var t, s := w.cur, w.tasks[w.cur];
    LoadedSame(t, s, m, v.mem, w.regs.esp - 16);
    SwitchLoads(v, t, v1);
    forall a | w.regs.esp <= a < s.top ensures Peek(v1.mem, a) == Peek(w.mem, a) {
      assert s.Holds(a);
    }
  }

  lemma ParksAt(ws: seq<World>, es: seq<Event>, i: nat)
    requires Trace(ws, es) && i < |es| && es[i].Switch?
    ensures ws[i].cur in ws[i].tasks && ws[i + 1].tasks == ws[i].tasks
    ensures Parked(ws[i], ws[i].cur, ws[i].tasks[ws[i].cur], ws[i + 1].mem)
  {
    StaysPlaced(ws, es, i);
    assert StepAt(ws, es, i);
    SwitchParks(ws[i], es[i], ws[i + 1]);
  }

  lemma BackAt(ws: seq<World>, es: seq<Event>, w: World, m: Memory, j: nat)
    requires Trace(ws, es) && j < |es| && es[j] == Switch(w.cur)
    requires w.cur in w.tasks && Parked(w, w.cur, w.tasks[w.cur], m)
    requires w.cur in ws[j].tasks && ws[j].tasks[w.cur] == w.tasks[w.cur]
    requires Untouched(w.cur, w.tasks[w.cur], m, ws[j].mem)
    ensures Resumes(w, ws[j + 1])
  {
    StaysPlaced(ws, es, j);
    assert StepAt(ws, es, j);
    SwitchBack(w, m, ws[j], ws[j + 1]);
  }

  /** Over any interleaving: a task switched out at step i and next switched to at step j resumes exactly
      where it was. */
  lemma SwitchRestores(ws: seq<World>, es: seq<Event>, t: nat, i: nat, j: nat)
    requires Trace(ws, es) && i < j < |es|
    requires ws[i].cur == t && es[i].Switch? && es[j] == Switch(t)
    requires Suspended(ws, es, t, i + 1, j)
    ensures Resumes(ws[i], ws[j + 1])
  {
    ParksAt(ws, es, i);
    StackSurvives(ws, es, t, i + 1, j);
    BackAt(ws, es, ws[i], ws[i + 1].mem, j);
  }

  /** The memory m holds the frame that prepare_user_task_stack builds at the top of s. */
  ghost predicate ReadyForUser(e: Event, s: Stack, m: Memory)
    requires e.Prepare?
  {
    && s.base + 44 <= s.top
    && Peek(m, e.t + KERNEL_ESP) == s.top - 44
    && Loaded(m, s.top - 44) == Regs(0, 0, 0, 0, s.top - 24, e.code.enterUserTask)
    && Entered(m, s.top - 24) == UserState(e.entry, USER_CODE, e.eflags, e.userEsp, USER_DATA, USER_DATA)
  }

  lemma PreparedFrame(w: World, e: Event, w1: World)
    requires e.Prepare? && Next(w, e, w1) && Placed(w.tasks)
    ensures ReadyForUser(e, w.tasks[e.t], w1.mem)
  {
    var s := w.tasks[e.t];
    assert !s.Holds(e.t + KERNEL_ESP);
    PreparedReads(w.mem, e.t, s.top, e.code, e.entry, e.eflags, e.userEsp);
  }

  lemma LoadsForUser(e: Event, m: Memory, v: World, v1: World)
    requires e.Prepare? && e.t in v.tasks && Placed(v.tasks) && ReadyForUser(e, v.tasks[e.t], m)
    requires Untouched(e.t, v.tasks[e.t], m, v.mem) && Untouched(e.t, v.tasks[e.t], v.mem, v1.mem)
    requires v1.regs == Loaded(v.mem, Peek(v.mem, e.t + KERNEL_ESP))
    ensures v1.regs.eip == e.code.enterUserTask
    ensures Entered(v1.mem, v1.regs.esp) == UserState(e.entry, USER_CODE, e.eflags, e.userEsp, USER_DATA, USER_DATA)
  {
    var t, s := e.t, v.tasks[e.t];
    LoadedSame(t, s, m, v.mem, s.top - 44);
    EnteredSame(t, s, m, v.mem, s.top - 24);
    EnteredSame(t, s, v.mem, v1.mem, s.top - 24);
  }

  lemma EntersUser(e: Event, m: Memory, v: World, v1: World)
    requires e.Prepare? && e.t in v.tasks && Placed(v.tasks) && ReadyForUser(e, v.tasks[e.t], m)
    requires Untouched(e.t, v.tasks[e.t], m, v.mem) && Next(v, Switch(e.t), v1)
    ensures v1.regs.eip == e.code.enterUserTask
    ensures Entered(v1.mem, v1.regs.esp) == UserState(e.entry, USER_CODE, e.eflags, e.userEsp, USER_DATA, USER_DATA)
  {
    SwitchLoads(v, e.t, v1);
    LoadsForUser(e, m, v, v1);
  }

  lemma PreparesAt(ws: seq<World>, es: seq<Event>, i: nat)
    requires Trace(ws, es) && i < |es| && es[i].Prepare?
    ensures es[i].t in ws[i].tasks && ws[i + 1].tasks == ws[i].tasks
    ensures ReadyForUser(es[i], ws[i].tasks[es[i].t], ws[i + 1].mem)
  {
    StaysPlaced(ws, es, i);
    assert StepAt(ws, es, i);
    PreparedFrame(ws[i], es[i], ws[i + 1]);
  }

  lemma EntersAt(ws: seq<World>, es: seq<Event>, e: Event, s: Stack, m: Memory, j: nat)
    requires Trace(ws, es) && j < |es| && e.Prepare? && es[j] == Switch(e.t)
    requires e.t in ws[j].tasks && ws[j].tasks[e.t] == s && ReadyForUser(e, s, m) && Untouched(e.t, s, m, ws[j].mem)
    ensures ws[j + 1].regs.eip == e.code.enterUserTask
    ensures Entered(ws[j + 1].mem, ws[j + 1].regs.esp)
         == UserState(e.entry, USER_CODE, e.eflags, e.userEsp, USER_DATA, USER_DATA)
  {
    StaysPlaced(ws, es, j);
    assert StepAt(ws, es, j);
    EntersUser(e, m, ws[j], ws[j + 1]);
  }

  /** Over any interleaving: the first switch to a prepared task lands in enter_user_task, which returns
      to user mode with exactly the prepared state. */
  lemma FirstSwitchEntersUser(ws: seq<World>, es: seq<Event>, t: nat, i: nat, j: nat)
    requires Trace(ws, es) && i < j < |es|
    requires es[i].Prepare? && es[i].t == t && es[j] == Switch(t)
    requires Suspended(ws, es, t, i + 1, j)
    ensures ws[j + 1].regs.eip == es[i].code.enterUserTask
    ensures Entered(ws[j + 1].mem, ws[j + 1].regs.esp)
         == UserState(es[i].entry, USER_CODE, es[i].eflags, es[i].userEsp, USER_DATA, USER_DATA)
  {
    PreparesAt(ws, es, i);
    StackSurvives(ws, es, t, i + 1, j);
    EntersAt(ws, es, es[i], ws[i].tasks[t], ws[i + 1].mem, j);
  }
}
