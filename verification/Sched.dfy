/** The scheduler as the kernel keeps it: task structs in memory, linked by address on a circular
    doubly linked ring. Reading or writing a struct requires its memory not to have been freed. */
module Scheduler {
  import opened Words
  import opened SchedSpec

  datatype Task = Task(state: TaskState, exitCode: int, prev: Ptr, next: Ptr)

  type Memory = map<nat, Task>

  function States(m: Memory): map<nat, TaskState> {
    map t | t in m :: m[t].state
  }

  // ----- rings of structs

  ghost predicate LinkAt(ring: seq<nat>, m: Memory, i: nat)
    requires i < |ring|
  {
    var a, b := ring[i], ring[Wrap(|ring|, i + 1)];
    a in m && b in m && m[a].next == Some(b) && m[b].prev == Some(a)
  }

  /** prev and next are inverse along the whole ring, and null off the ring. */
  ghost predicate Circular(ring: seq<nat>, m: Memory) {
    && ring != [] && Distinct(ring)
    && (forall i :: 0 <= i < |ring| ==> LinkAt(ring, m, i))
    && (forall t :: t in m && t !in ring ==> m[t].prev == None && m[t].next == None)
  }

  function Before(n: nat, i: nat): nat
    requires i < n
  {
    if i == 0 then n - 1 else i - 1
  }

  lemma LinksOf(ring: seq<nat>, m: Memory, i: nat)
    requires Circular(ring, m) && i < |ring|
    ensures var t := ring[i];
            t in m && m[t].next == Some(ring[Wrap(|ring|, i + 1)]) && m[t].prev == Some(ring[Before(|ring|, i)])
    ensures ring[Wrap(|ring|, i + 1)] in m && ring[Before(|ring|, i)] in m
  {
    assert LinkAt(ring, m, i);
    assert LinkAt(ring, m, Before(|ring|, i));
  }

  lemma RingInMemory(ring: seq<nat>, m: Memory)
    requires Circular(ring, m)
    ensures forall t :: t in ring ==> t in m
  {
    forall i | 0 <= i < |ring| ensures ring[i] in m {
      assert LinkAt(ring, m, i);
    }
  }

  /** A memory with the same links keeps the ring. */
  lemma SameLinks(ring: seq<nat>, m: Memory, m': Memory)
    requires Circular(ring, m)
    requires forall t :: t in m ==> t in m' && m'[t].prev == m[t].prev && m'[t].next == m[t].next
    requires forall t :: t in m' && t !in m ==> m'[t].prev == None && m'[t].next == None
    ensures Circular(ring, m')
  {
    forall i | 0 <= i < |ring| ensures LinkAt(ring, m', i) {
      assert LinkAt(ring, m, i);
    }
  }

  /** m with task t spliced in between tail and head. */
  ghost predicate SplicedIn(m: Memory, m': Memory, t: nat, tail: nat, head: nat) {
    && m'.Keys == m.Keys
    && forall u :: u in m ==>
         && m'[u].next == (if u == tail then Some(t) else if u == t then Some(head) else m[u].next)
         && m'[u].prev == (if u == head then Some(t) else if u == t then Some(tail) else m[u].prev)
  }

  lemma AppendCircular(ring: seq<nat>, m: Memory, t: nat, m': Memory)
    requires Circular(ring, m) && t !in ring && t in m && SplicedIn(m, m', t, ring[|ring| - 1], ring[0])
    ensures Circular(ring + [t], m')
  {
    var r := ring + [t];
    var n := |ring|;
    assert ring[0] in ring && ring[n - 1] in ring;
    forall i | 0 <= i < n + 1 ensures LinkAt(r, m', i) {
      if i + 1 < n {
        assert LinkAt(ring, m, i);
        assert r[i] == ring[i] && r[Wrap(n + 1, i + 1)] == ring[i + 1];
        assert ring[i] in ring && ring[i + 1] in ring;
      } else {
        LinksOf(ring, m, 0);
        LinksOf(ring, m, n - 1);
        assert r[i] == if i < n then ring[n - 1] else t;
        assert r[Wrap(n + 1, i + 1)] == if i < n then t else ring[0];
      }
    }
  }

  /** m with task t taken out from between p and q. */
  ghost predicate SplicedOut(m: Memory, m': Memory, t: nat, p: nat, q: nat) {
    && m'.Keys == m.Keys
    && forall u :: u in m ==>
         && m'[u].next == (if u == t then None else if u == p then Some(q) else m[u].next)
         && m'[u].prev == (if u == t then None else if u == q then Some(p) else m[u].prev)
  }

  lemma UnlinkCircular(ring: seq<nat>, m: Memory, i: nat, m': Memory)
    requires Circular(ring, m) && i < |ring| && |ring| > 1
    requires SplicedOut(m, m', ring[i], ring[Before(|ring|, i)], ring[Wrap(|ring|, i + 1)])
    ensures Circular(Without(ring, ring[i]), m')
  {
    IndexUnique(ring, ring[i], i);
    WithoutDistinct(ring, ring[i]);
    var r := Without(ring, ring[i]);
    forall k | 0 <= k < |r| ensures LinkAt(r, m', k) {
      UnlinkedAt(ring, m, i, m', k);
    }
  }

  lemma UnlinkedAt(ring: seq<nat>, m: Memory, i: nat, m': Memory, k: nat)
    requires Circular(ring, m) && i < |ring| && |ring| > 1 && k < |ring| - 1
    requires SplicedOut(m, m', ring[i], ring[Before(|ring|, i)], ring[Wrap(|ring|, i + 1)])
    ensures LinkAt(ring[..i] + ring[i + 1..], m', k)
  {
    var at, to := SlotsAround(ring, i, k);
    LinksOf(ring, m, at);
    LinksOf(ring, m, to);
    if Wrap(|ring|, at + 1) == i {
      LinksOf(ring, m, i);
    }
  }

  /** The old slots of neighbours on a ring that lost slot i. */
  lemma SlotsAround(ring: seq<nat>, i: nat, k: nat) returns (at: nat, to: nat)
    requires Distinct(ring) && i < |ring| && |ring| > 1 && k < |ring| - 1
    ensures var n := |ring|;
            var r := ring[..i] + ring[i + 1..];
            && at < n && to < n && at != i && to != i && r[k] == ring[at] && r[Wrap(n - 1, k + 1)] == ring[to]
            && to == (if Wrap(n, at + 1) == i then Wrap(n, i + 1) else Wrap(n, at + 1))
  {
    at := if k < i then k else k + 1;
    to := if Wrap(|ring|, at + 1) == i then Wrap(|ring|, i + 1) else Wrap(|ring|, at + 1);
  }

  /** What the search sees at offset k from slot i: where next leads, and whether the task can run. */
  ghost predicate Visits(s: Sched<nat>, m: Memory, i: nat, k: nat)
    requires i < |s.ring| && k < |s.ring|
  {
    var t := Slot(s.ring, i, k);
    && t in m
    && m[t].next == Some(if k + 1 < |s.ring| then Slot(s.ring, i, k + 1) else s.ring[i])
    && (k > 0 ==> t != s.ring[i])
    && (Runnable(s, t) <==> (m[t].state.Ready? || m[t].state.Running?) && t != s.idle)
  }

  lemma VisitsAll(s: Sched<nat>, m: Memory, i: nat)
    requires Circular(s.ring, m) && s.state == States(m) && i < |s.ring|
    ensures forall k :: 0 <= k < |s.ring| ==> Visits(s, m, i, k)
  {
    forall k | 0 <= k < |s.ring| ensures Visits(s, m, i, k) {
      LinksOf(s.ring, m, Wrap(|s.ring|, i + k));
    }
  }

  lemma ForgetCircular(ring: seq<nat>, m: Memory, t: nat)
    requires Circular(ring, m) && t !in ring
    ensures Circular(ring, m - {t})
  {
    forall i | 0 <= i < |ring| ensures LinkAt(ring, m - {t}, i) {
      assert LinkAt(ring, m, i);
      assert ring[i] in ring && ring[Wrap(|ring|, i + 1)] in ring;
    }
  }

  lemma SeveralTasks(ring: seq<nat>, t: nat)
    requires t in ring && ring[0] != t
    ensures |ring| > 1
  {
  }

  lemma StatesForget(m: Memory, t: nat)
    ensures States(m - {t}) == States(m) - {t}
  {
  }

  ghost predicate SameExitCodes(m: map<nat, Task>, m': map<nat, Task>) {
    forall t :: t in m ==> t in m' && m'[t].exitCode == m[t].exitCode
  }

  class Scheduler {
    const idle: nat
    var memory: Memory
    var taskPtr: Ptr
    var current: Ptr
    var dead: Ptr
    ghost var ring: seq<nat>
    ghost var reaped: seq<nat>

    ghost function Abs(): Sched<nat>
      reads this
    {
      Sched(idle, ring, States(memory), current, dead, reaped)
    }

    ghost predicate Linked()
      reads this
    {
      Circular(ring, memory) && taskPtr == Some(ring[|ring| - 1])
    }

    ghost predicate Valid()
      reads this
    {
      Linked() && Inv(Abs())
    }

    /** init_scheduler and init_idle_task. */
    constructor (idle: nat)
      ensures Valid() && Abs() == Booted(idle)
    {
      this.idle := idle;
      memory := map[idle := Task(Ready, 0, Some(idle), Some(idle))];
      taskPtr, current, dead := Some(idle), None, None;
      ring, reaped := [idle], [];
      new;
      assert Abs() == Booted(idle);
      assert LinkAt(ring, memory, 0);
    }

    /** create_task: a zeroed struct at a new address. */
    method CreateTask(t: nat)
      requires Valid() && Legal(Abs(), DoCreate(t))
      modifies this
      ensures Valid() && Abs() == SchedSpec.Create(old(Abs()), t)
    {
      ghost var s := Abs();
      StepKeepsInv(s, DoCreate(t));
      SameLinks(ring, memory, memory[t := Task(New, 0, None, None)]);
      memory := memory[t := Task(New, 0, None, None)];
      assert Abs() == SchedSpec.Create(s, t);
    }

    method SetState(t: nat, st: TaskState)
      requires t in memory && Linked()
      modifies this`memory
      ensures Linked() && memory == old(memory)[t := old(memory)[t].(state := st)]
      ensures States(memory) == States(old(memory))[t := st]
    {
      SameLinks(ring, memory, memory[t := memory[t].(state := st)]);
      memory := memory[t := memory[t].(state := st)];
    }

    // ----- choosing the next task

    ghost predicate Searchable()
      reads this
    {
      Linked() && RingOk(Abs()) && (current.Some? ==> current.value in ring)
    }

    method FirstCandidate() returns (t: nat)
      requires Searchable()
      ensures t == ring[StartSlot(Abs())]
    {
      if current.Some? {
        LinksOf(ring, memory, IndexOf(ring, current.value));
        return memory[current.value].next.value;
      }
      LinksOf(ring, memory, |ring| - 1);
      return memory[taskPtr.value].next.value;
    }

    /** The do-while search of next_task, from the task in slot i. */
    method Search(start: nat, ghost s: Sched<nat>, ghost i: nat) returns (t: nat)
      requires s.idle == idle && i < |s.ring| && start == s.ring[i]
      requires forall k :: 0 <= k < |s.ring| ==> Visits(s, memory, i, k)
      ensures var k := Scan(s, i, |s.ring|); t == if k < |s.ring| then Slot(s.ring, i, k) else idle
    {
      var iter := start;
      ghost var k := 0;
      assert Visits(s, memory, i, 0);
      while true
        invariant k < |s.ring| && iter == Slot(s.ring, i, k) && Visits(s, memory, i, k)
        invariant forall m :: 0 <= m < k ==> !Runnable(s, Slot(s.ring, i, m))
        decreases |s.ring| - k
      {
        if (memory[iter].state.Ready? || memory[iter].state.Running?) && iter != idle {
          ScanIs(s, i, k);
          return iter;
        }
        iter := memory[iter].next.value;
        assert k + 1 < |s.ring| ==> Visits(s, memory, i, k + 1);
        if iter == start {
          break;
        }
        k := k + 1;
      }
      ScanIs(s, i, |s.ring|);
      return idle;
    }

    method NextTask() returns (t: nat)
      requires Searchable()
      ensures t == SchedSpec.NextTask(Abs())
    {
      ghost var s := Abs();
      VisitsAll(s, memory, StartSlot(s));
      var first := FirstCandidate();
      t := Search(first, s, StartSlot(s));
    }

    // ----- the ring

    method SpliceIn(t: nat, tail: nat, head: nat)
      requires t in memory && tail in memory && head in memory && t != tail && t != head
      modifies this`memory
      ensures SplicedIn(old(memory), memory, t, tail, head) && States(memory) == States(old(memory))
    {
      memory := memory[t := memory[t].(prev := Some(tail))];
      memory := memory[t := memory[t].(next := Some(head))];
      memory := memory[head := memory[head].(prev := Some(t))];
      memory := memory[tail := memory[tail].(next := Some(t))];
    }

    method SpliceOut(t: nat)
      requires t in memory && memory[t].prev.Some? && memory[t].next.Some?
      requires memory[t].prev.value in memory && memory[t].next.value in memory
      requires memory[t].prev != Some(t) && memory[t].next != Some(t)
      modifies this`memory
      ensures SplicedOut(old(memory), memory, t, old(memory[t].prev.value), old(memory[t].next.value))
      ensures States(memory) == States(old(memory))
    {
      var p, q := memory[t].prev.value, memory[t].next.value;
      memory := memory[p := memory[p].(next := Some(q))];
      memory := memory[q := memory[q].(prev := Some(p))];
      memory := memory[t := memory[t].(prev := None)];
      memory := memory[t := memory[t].(next := None)];
    }

    /** Inserts a task between task_ptr and the head and makes it the new task_ptr. */
    method LinkAfterTail(t: nat)
      requires Linked() && t in memory && t !in ring
      modifies this`memory, this`ring, this`taskPtr
      ensures Linked() && ring == old(ring) + [t] && States(memory) == States(old(memory))
    {
      ghost var m := memory;
      LinksOf(ring, m, |ring| - 1);
      LinksOf(ring, m, 0);
      SpliceIn(t, taskPtr.value, memory[taskPtr.value].next.value);
      AppendCircular(ring, m, t, memory);
      taskPtr := Some(t);
      ring := ring + [t];
    }

    /** The branch of dequeue_task for a ring of several tasks. */
    method Unlink(t: nat, ghost i: nat)
      requires Linked() && i < |ring| && ring[i] == t && |ring| > 1
      modifies this`memory, this`ring, this`taskPtr, this`current
      ensures Linked() && ring == Without(old(ring), t) && States(memory) == States(old(memory))
      ensures t in memory && memory[t].prev == memory[t].next == None
      ensures current == if old(current) == Some(t) then Some(old(ring)[Wrap(|old(ring)|, i + 1)]) else old(current)
    {
      ghost var m := memory;
      LinksOf(ring, m, i);
      IndexUnique(ring, t, i);
      if taskPtr == Some(t) {
        taskPtr := memory[t].prev;
      }
      if current == Some(t) {
        current := memory[t].next;
      }
      SpliceOut(t);
      UnlinkCircular(ring, m, i, memory);
      ring := Without(ring, t);
    }

    /** dequeue_task: null and unlinked tasks are refused; the ring loses the task, task_ptr stays at its end,
        and the current task passes to the successor. */
    method DequeueTask(task: Ptr) returns (ok: bool)
      requires Linked() && (task.Some? ==> task.value in memory)
      modifies this`memory, this`ring, this`taskPtr, this`current
      ensures ok == (task.Some? && task.value in old(ring)) && States(memory) == States(old(memory))
      ensures !ok ==> memory == old(memory) && ring == old(ring) && taskPtr == old(taskPtr) && current == old(current)
      ensures ok ==> ring == Without(old(ring), task.value)
      ensures ok && |old(ring)| > 1 ==> Linked()
      ensures ok && |old(ring)| == 1 ==> taskPtr == None
      ensures ok ==> task.value in memory && memory[task.value].prev == memory[task.value].next == None
      ensures ok && old(current) == task ==>
                current == if |old(ring)| == 1 then None
                           else Some(old(ring)[Wrap(|old(ring)|, IndexOf(old(ring), task.value) + 1)])
      ensures ok && old(current) != task ==> current == old(current)
    {
      if task == None {
        return false;
      }
      var t := task.value;
      if t in ring {
        LinksOf(ring, memory, IndexOf(ring, t));
      }
      if memory[t].prev == None || memory[t].next == None {
        return false;
      }
      ghost var i := IndexOf(ring, t);
      if memory[t].next == Some(t) {
        assert |ring| == 1;
        taskPtr := None;
        if current == Some(t) {
          current := None;
        }
        memory := memory[t := memory[t].(prev := None, next := None)];
        ring := Without(ring, t);
      } else {
        assert |ring| > 1;
        Unlink(t, i);
      }
      return true;
    }

    /** The end of enqueue_task: the task runs if nobody did. */
    method Admit(t: nat)
      requires t in memory && Linked()
      modifies this`memory, this`current
      ensures Linked() && current == if old(current) == None then Some(t) else old(current)
      ensures States(memory) == States(old(memory))[t := if old(current) == None then Running else Ready]
    {
      if current == None {
        current := Some(t);
        SetState(t, Running);
      } else {
        SetState(t, Ready);
      }
    }

    /** enqueue_task: null, linked or non-new tasks are refused; others go after task_ptr. */
    method EnqueueTask(task: Ptr) returns (ok: bool)
      requires Valid() && (task.Some? ==> task.value in memory)
      modifies this
      ensures Valid()
      ensures ok == (task.Some? && task.value !in old(ring) && old(memory)[task.value].state.New?)
      ensures Abs() == if task == None then old(Abs()) else SchedSpec.Enqueue(old(Abs()), task.value)
    {
      if task == None {
        return false;
      }
      var t := task.value;
      ghost var s := Abs();
      if t in ring {
        LinksOf(ring, memory, IndexOf(ring, t));
      }
      if memory[t].prev.Some? || memory[t].next.Some? || !memory[t].state.New? {
        return false;
      }
      EnqueueKeeps(s, t);
      LinkAfterTail(t);
      Admit(t);
      assert Abs() == SchedSpec.Enqueue(s, t);
      return true;
    }

    // ----- leaving the current task

    /** reap_dead_task: takes the zombie off the ring and frees its stack and struct. */
    method ReapDeadTask(prev: nat)
      requires Linked() && RingOk(Abs()) && DeadOk(Abs()) && current == Some(prev) && dead != Some(idle)
      modifies this
      ensures Linked() && Abs() == Reap(old(Abs()), prev)
      ensures old(dead) == Some(prev) ==> memory == old(memory)
    {
      if dead == None || dead == Some(prev) {
        return;
      }
      ghost var s := Abs();
      var t := dead.value;
      SeveralTasks(s.ring, t);
      var gone := DequeueTask(dead);
      WithoutDistinct(s.ring, t);
      ForgetCircular(ring, memory, t);
      StatesForget(memory, t);
      memory := memory - {t};
      reaped := reaped + [t];
      dead := None;
      assert Abs() == Reap(s, prev);
    }

    /** context_switch up to the stack swap: from then on `next` executes. */
    method ContextSwitch(prev: nat, next: nat)
      requires Linked() && RingOk(Abs()) && DeadOk(Abs()) && current == Some(prev) && dead != Some(idle)
      requires next in ring && dead != Some(next)
      modifies this
      ensures Linked() && Abs() == Switch(old(Abs()), prev, next)
      ensures old(dead) == Some(prev) ==> SameExitCodes(old(memory), memory)
    {
      ghost var s := Abs();
      if s.dead.Some? {
        WithoutDistinct(s.ring, s.dead.value);
      }
      ReapDeadTask(prev);
      RingInMemory(ring, memory);
      if prev == next {
        return;
      }
      current := Some(next);
      SetState(next, Running);
      assert Abs() == Switch(s, prev, next);
    }

    /** The statement after the switch in schedule and block_task, run when the task is resumed: the
        resumed task is the current one and is already marked as running. */
    method Resumed(t: nat)
      requires Valid() && current == Some(t)
      modifies this
      ensures Valid() && Abs() == old(Abs())
    {
      ghost var s := Abs();
      RingInMemory(ring, memory);
      SetState(t, Running);
      assert Abs() == s;
    }

    /** wake_task. */
    method WakeTask(task: Ptr)
      requires Valid() && (task.Some? ==> task.value in memory)
      modifies this
      ensures Valid() && Abs() == if task == None then old(Abs()) else Wake(old(Abs()), task.value)
    {
      if task == None || !memory[task.value].state.Blocked? {
        return;
      }
      ghost var s := Abs();
      StepKeepsInv(s, DoWake(task.value));
      SetState(task.value, Ready);
      assert Abs() == Wake(s, task.value);
    }

    /** block_task. The branch in which it would spin forever is unreachable. */
    method BlockTask(task: Ptr)
      requires Valid() && (task.Some? ==> task.value in memory)
      modifies this
      ensures Valid() && Abs() == if task == None then old(Abs()) else Block(old(Abs()), task.value)
    {
      if task == None || task == Some(idle) {
        return;
      }
      var t := task.value;
      if !memory[t].state.Ready? && !memory[t].state.Running? {
        return;
      }
      ghost var s := Abs();
      BlockKeeps(s, t);
      SetState(t, Blocked);
      ghost var r := s.(state := s.state[t := Blocked]);
      assert Abs() == r;
      if task != current {
        return;
      }
      LeavingOk(s, r, t, Blocked);
      var next := NextTask();
      if next == t {
        assert false;
      }
      ContextSwitch(t, next);
    }

    /** The second half of schedule, after its own reap. */
    method SwitchAway(next: nat)
      requires Valid() && current.Some? && current != Some(next) && next == SchedSpec.NextTask(Abs())
      modifies this
      ensures Linked()
      ensures Abs() == var r, c := old(Abs()), old(current.value); Switch(r.(state := r.state[c := Ready]), c, next)
    {
      ghost var r := Abs();
      var c := current.value;
      LeavingOk(r, r.(state := r.state[c := Ready]), c, Ready);
      SameNext(r, r.(state := r.state[c := Ready]));
      SetState(c, Ready);
      assert Abs() == r.(state := r.state[c := Ready]);
      ContextSwitch(c, next);
    }

    /** schedule, as the timer interrupt calls it. */
    method Schedule()
      requires Valid()
      modifies this
      ensures Valid() && Abs() == SchedSpec.Schedule(old(Abs()))
    {
      if current == None {
        return;
      }
      ghost var s := Abs();
      ScheduleKeeps(s);
      ReapKeeps(s, current.value);
      ReapDeadTask(current.value);
      var next := NextTask();
      if Some(next) == current {
        return;
      }
      SwitchAway(next);
    }

    method MarkZombie(t: nat, exitCode: int)
      requires Linked() && t in memory
      modifies this`memory, this`dead
      ensures Linked() && dead == Some(t) && States(memory) == States(old(memory))[t := Zombie]
      ensures t in memory && memory[t].exitCode == exitCode
    {
      SameLinks(ring, memory, memory[t := memory[t].(exitCode := exitCode)]);
      memory := memory[t := memory[t].(exitCode := exitCode)];
      SetState(t, Zombie);
      dead := Some(t);
    }

    /** exit_task, the scheduler's part: the code after the switch is never reached. */
    method ExitTask(exitCode: int)
      requires Valid() && Legal(Abs(), DoExit)
      modifies this
      ensures Valid() && Abs() == Exit(old(Abs())) && current != old(current)
      ensures old(current.value) in memory && memory[old(current.value)].exitCode == exitCode
    {
      ghost var s := Abs();
      var t := current.value;
      ExitKeeps(s);
      RingInMemory(ring, memory);
      MarkZombie(t, exitCode);
      ghost var r := s.(state := s.state[t := Zombie], dead := Some(t));
      assert Abs() == r;
      LeavingOk(s, r, t, Zombie);
      var next := NextTask();
      ContextSwitch(t, next);
    }
  }
}
