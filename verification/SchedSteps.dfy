/** What each call does to the scheduler, said without the functions that compute it: the state of every task, who is
    next, what is freed and where a task joins the ring. */
module SchedSteps {
  import opened Words
  import opened SchedSpec
  import opened SchedWaiting

  // ----- states

  /** The state of a task after a call that leaves it in memory. */
  function StateAfter<T(==)>(s: Sched<T>, op: Op<T>, runs: bool, t: T): TaskState {
    if runs then Running
    else if t !in s.state then New
    else if s.current == Some(t) then
      (if op.DoExit? then Zombie else if op == DoBlock(t) then Blocked else Ready)
    else if op == DoEnqueue(t) && s.state[t].New? then Ready
    else if op == DoWake(t) && s.state[t].Blocked? then Ready
    else if op == DoBlock(t) && s.state[t].Ready? && t != s.idle then Blocked
    else s.state[t]
  }

  ghost predicate StatesFollow<T>(s: Sched<T>, op: Op<T>, r: Sched<T>) {
    forall t :: t in r.state ==> r.state[t] == StateAfter(s, op, r.current == Some(t), t)
  }

  lemma SwitchStates<T>(s: Sched<T>, m: Sched<T>, op: Op<T>, c: T, st: TaskState)
    requires Leaving(s, m, c, st) && NextTask(m) != c && m.state[c] == StateAfter(s, op, false, c)
    requires op.DoSchedule? || op.DoExit? || op == DoBlock(c)
    ensures m.dead.Some? ==> m.dead.value in m.ring
    ensures StatesFollow(s, op, Switch(m, c, NextTask(m)))
  {
    LeavingReaped(s, m, c, st);
    LeavingOk(s, m, c, st);
    var q, n := Reap(m, c), NextTask(m);
    assert n in s.state;
    forall t | t in Switch(m, c, n).state ensures Switch(m, c, n).state[t] == StateAfter(s, op, t == n, t) {
      EnteredState(s, m, q, op, c, st, n, t);
    }
  }

  lemma EnteredState<T>(s: Sched<T>, m: Sched<T>, q: Sched<T>, op: Op<T>, c: T, st: TaskState, n: T, t: T)
    requires s.current == Some(c) && m.state == s.state[c := st] && st == StateAfter(s, op, false, c) && n in s.state
    requires op.DoSchedule? || op.DoExit? || op == DoBlock(c)
    requires forall u :: u in q.state ==> u in s.state && q.state[u] == m.state[u]
    requires t in q.state[n := Running]
    ensures q.state[n := Running][t] == StateAfter(s, op, t == n, t)
  {
  }

  lemma ScheduleStates<T>(s: Sched<T>)
    requires Inv(s) && s.current.Some?
    ensures StatesFollow(s, DoSchedule, Schedule(s))
  {
    var c := s.current.value;
    ReapReapsSafely(s, c);
    ScheduleShape(s);
    GivenMoves(s, c);
    var q := Reap(s, c);
    var r := Given(q, c, NextTask(q));
    forall t | t in r.state ensures r.state[t] == StateAfter(s, DoSchedule, r.current == Some(t), t) {
      assert t in q.state && q.state[t] == s.state[t];
    }
  }

  /** Every call leaves every task in the state that follows from its own and from who runs. */
  lemma StepStates<T>(s: Sched<T>, op: Op<T>)
    requires Inv(s) && Legal(s, op)
    ensures StatesFollow(s, op, Step(s, op))
  {
    match op
    case DoCreate(u) =>
    case DoEnqueue(u) =>
    case DoSchedule =>
      if s.current.Some? { ScheduleStates(s); }
    case DoBlock(u) => BlockStates(s, u);
    case DoWake(u) =>
    case DoExit => ExitStates(s);
  }

  lemma BlockStates<T>(s: Sched<T>, u: T)
    requires Inv(s) && u in s.state
    ensures StatesFollow(s, DoBlock(u), Block(s, u))
  {
    if s.current == Some(u) && u != s.idle {
      BlockKeeps(s, u);
      SwitchStates(s, s.(state := s.state[u := Blocked]), DoBlock(u), u, Blocked);
    }
  }

  lemma ExitStates<T>(s: Sched<T>)
    requires Inv(s) && s.current.Some? && s.current != Some(s.idle)
    ensures StatesFollow(s, DoExit, Exit(s))
  {
    var c := s.current.value;
    var m := s.(state := s.state[c := Zombie], dead := Some(c));
    NextRuns(m);
    SwitchStates(s, m, DoExit, c, Zombie);
  }

  // ----- memory

  /** The calls that reap: a tick and the current task blocking. */
  ghost predicate Frees<T>(s: Sched<T>, op: Op<T>) {
    s.dead.Some? && (op.DoSchedule? || (op.DoBlock? && s.current == Some(op.t) && op.t != s.idle))
  }

  /** r is s without task d. */
  ghost predicate Gone<T>(s: Sched<T>, r: Sched<T>, d: T) {
    && (exists i :: 0 <= i < |s.ring| && s.ring[i] == d && r.ring == s.ring[..i] + s.ring[i + 1..])
    && d !in r.ring && r.state.Keys == s.state.Keys - {d} && r.reaped == s.reaped + [d] && r.dead == None
  }

  /** What an operation adds to the ring and to memory, and the dead slot, when nothing is freed. */
  ghost predicate Stays<T>(s: Sched<T>, op: Op<T>, r: Sched<T>) {
    && r.reaped == s.reaped
    && r.ring == s.ring + (if op.DoEnqueue? && op.t in s.state && s.state[op.t].New? then [op.t] else [])
    && r.state.Keys == s.state.Keys + (if op.DoCreate? then {op.t} else {})
    && r.dead == if op.DoExit? then s.current else s.dead
  }

  lemma ReapGone<T>(m: Sched<T>, c: T)
    requires RingOk(m) && m.dead.Some? && m.dead != Some(c) && m.dead.value in m.ring
    ensures Gone(m, Reap(m, c), m.dead.value)
  {
    var d := m.dead.value;
    WithoutDistinct(m.ring, d);
    var i := IndexOf(m.ring, d);
    assert m.ring[i] == d && Reap(m, c).ring == m.ring[..i] + m.ring[i + 1..];
  }

  lemma GoneStill<T>(s: Sched<T>, m: Sched<T>, q: Sched<T>, r: Sched<T>, d: T)
    requires Gone(m, q, d) && m.ring == s.ring && m.state.Keys == s.state.Keys && m.reaped == s.reaped
    requires r.ring == q.ring && r.state.Keys == q.state.Keys && r.reaped == q.reaped && r.dead == q.dead
    ensures Gone(s, r, d)
  {
  }

  lemma DeadIsNotCurrent<T>(s: Sched<T>)
    requires Inv(s) && s.dead.Some?
    ensures s.current.Some? && s.dead != s.current && s.dead.value in s.ring
  {
  }

  lemma ScheduleFrees<T>(s: Sched<T>)
    requires Inv(s) && s.current.Some?
    ensures if s.dead.Some? then Gone(s, Schedule(s), s.dead.value) else Stays(s, DoSchedule, Schedule(s))
  {
    var c := s.current.value;
    ScheduleShape(s);
    GivenMoves(s, c);
    var q := Reap(s, c);
    if s.dead.Some? {
      DeadIsNotCurrent(s);
      ReapGone(s, c);
      GoneStill(s, s, q, Schedule(s), s.dead.value);
    }
  }

  lemma SwitchMemory<T>(m: Sched<T>, c: T, n: T)
    requires m.dead.Some? ==> m.dead.value in m.ring
    requires c != n && n in Reap(m, c).state
    ensures var q, r := Reap(m, c), Switch(m, c, n);
            r.ring == q.ring && r.state.Keys == q.state.Keys && r.reaped == q.reaped && r.dead == q.dead
  {
  }

  lemma NextStays<T>(s: Sched<T>, m: Sched<T>, c: T, st: TaskState)
    requires Leaving(s, m, c, st)
    ensures m.dead.Some? ==> m.dead.value in m.ring
    ensures RingOk(m) && NextTask(m) in Reap(m, c).state
  {
    LeavingOk(s, m, c, st);
    LeavingReaped(s, m, c, st);
    assert NextTask(m) in s.state;
  }

  lemma BlockedMemory<T>(s: Sched<T>, m: Sched<T>, c: T)
    requires Leaving(s, m, c, Blocked) && NextTask(m) != c && m.dead == s.dead
    ensures m.dead.Some? ==> m.dead.value in m.ring
    ensures var r := Switch(m, c, NextTask(m));
            if s.dead.Some? then Gone(s, r, s.dead.value) else Stays(s, DoBlock(c), r)
  {
    NextStays(s, m, c, Blocked);
    SwitchMemory(m, c, NextTask(m));
    if s.dead.Some? {
      DeadIsNotCurrent(s);
      ReapGone(m, c);
      GoneStill(s, m, Reap(m, c), Switch(m, c, NextTask(m)), s.dead.value);
    }
  }

  /** The exiting task is the one in the dead slot, which is spared. */
  lemma ExitedMemory<T>(s: Sched<T>, m: Sched<T>, c: T)
    requires Leaving(s, m, c, Zombie) && NextTask(m) != c && m.dead == Some(c) && NextTask(m) in s.state
    ensures m.dead.value in m.ring && Stays(s, DoExit, Switch(m, c, NextTask(m)))
  {
    LeavingOk(s, m, c, Zombie);
  }

  /** A call frees the task in the dead slot exactly when it reaps, and everything of it: its place on the ring and
      its memory. No other call frees anything; an enqueue adds the task at the end of the ring, a creation one task
      to memory, and an exit fills the dead slot. */
  lemma StepMemory<T>(s: Sched<T>, op: Op<T>)
    requires Inv(s) && Legal(s, op)
    ensures if Frees(s, op) then Gone(s, Step(s, op), s.dead.value) else Stays(s, op, Step(s, op))
  {
    match op
    case DoCreate(u) =>
    case DoEnqueue(u) =>
    case DoSchedule =>
      if s.current.Some? { ScheduleFrees(s); }
    case DoBlock(u) =>
      if s.current == Some(u) && u != s.idle {
        BlockKeeps(s, u);
        BlockedMemory(s, s.(state := s.state[u := Blocked]), u);
      }
    case DoWake(u) =>
    case DoExit =>
      var c := s.current.value;
      var m := s.(state := s.state[c := Zombie], dead := Some(c));
      NextRuns(m);
      ExitedMemory(s, m, c);
  }

  // ----- who is next

  /** n waits in s, and nobody who waits is nearer to c along the ring. */
  ghost predicate Nearest<T>(s: Sched<T>, c: T, n: T)
    requires Inv(s) && c in s.ring
  {
    Waiting(s, n) && n in s.ring && forall t :: t in s.ring && Waiting(s, t) ==>
        Dist(s.ring, c, n) <= Dist(s.ring, c, t)
  }

  ghost predicate Somebody<T>(s: Sched<T>) {
    exists t :: t in s.state && Waiting(s, t)
  }

  lemma NextNearest<T>(s: Sched<T>, c: T, t: T)
    requires RingOk(s) && s.current == Some(c) && c in s.ring && t in s.ring && t != c && Runnable(s, t)
    ensures var n := NextTask(s);
            n in s.ring && n != c && Runnable(s, n) && Dist(s.ring, c, n) <= Dist(s.ring, c, t)
  {
    var k := NextWithin(s, c, t);
    var i := IndexOf(s.ring, c);
    IndexUnique(s.ring, NextTask(s), Wrap(|s.ring|, i + k));
    DistSlot(s.ring, c, t);
  }

  /** Removing a task changes no order of distances. */
  lemma RemovalOrder<T>(ring: seq<T>, d: T, c: T, a: T, b: T)
    requires Distinct(ring) && d in ring && c in ring && a in ring && b in ring && d != c && d != a && d != b
    ensures var r := Without(ring, d);
            c in r && a in r && b in r && (Dist(r, c, a) <= Dist(r, c, b) ==> Dist(ring, c, a) <= Dist(ring, c, b))
  {
    RemovalIndex(ring, d, c);
    RemovalIndex(ring, d, a);
    RemovalIndex(ring, d, b);
    RemovalSize(ring, d);
    IndexDiffers(ring, d, c);
    IndexDiffers(ring, d, a);
    IndexDiffers(ring, d, b);
    Between(|ring|, IndexOf(ring, c), IndexOf(ring, a), IndexOf(ring, b), IndexOf(ring, d));
  }

  lemma RemovalSize<T>(ring: seq<T>, d: T)
    requires d in ring
    ensures |Without(ring, d)| == |ring| - 1
  {
  }

  lemma IndexDiffers<T>(ring: seq<T>, d: T, x: T)
    requires d in ring && x in ring && d != x
    ensures IndexOf(ring, d) != IndexOf(ring, x)
  {
  }

  /** Steps from slot i to slot j of n. */
  function Steps(n: nat, i: nat, j: nat): int {
    if i <= j then j - i else j + n - i
  }

  lemma Between(n: nat, i: nat, j: nat, l: nat, k: nat)
    requires i < n && j < n && l < n && k < n && i != k && j != k && l != k
    ensures var (x, y, z) := (if i < k then i else i - 1, if j < k then j else j - 1, if l < k then l else l - 1);
            Steps(n - 1, x, y) <= Steps(n - 1, x, z) ==> Steps(n, i, j) <= Steps(n, i, l)
  {
  }

  lemma NobodyNext<T>(s: Sched<T>, c: T)
    requires RingOk(s) && s.current == Some(c) && c in s.ring
    requires forall t :: t in s.ring && t != c ==> !Runnable(s, t)
    ensures NextTask(s) == if Runnable(s, c) then c else s.idle
  {
    var i := StartSlot(s);
    var k := Scan(s, i, |s.ring|);
    if Runnable(s, c) {
      var n := |s.ring|;
      assert Slot(s.ring, i, n - 1) == c;
      ScanStopsBy(s, i, n - 1);
    }
    if k < |s.ring| { assert Slot(s.ring, i, k) in s.ring; }
  }

  /** Who runs after leaving c. */
  lemma LeavingNext<T>(s: Sched<T>, m: Sched<T>, c: T, st: TaskState)
    requires Leaving(s, m, c, st)
    ensures var n := NextTask(m);
            if Somebody(s) then n != c && Nearest(s, c, n)
            else n == if Runnable(m, c) then c else s.idle
  {
    LeavingOk(s, m, c, st);
    forall t | Waiting(s, t) ensures t in s.ring && t != c && Runnable(m, t) { WaiterPlaced(s, t); }
    if Somebody(s) {
      var w :| w in s.state && Waiting(s, w);
      NextNearest(m, c, w);
      forall t | Waiting(s, t) && t in s.ring ensures Dist(s.ring, c, NextTask(m)) <= Dist(s.ring, c, t) {
        NextNearest(m, c, t);
      }
    } else {
      NobodyNext(m, c);
    }
  }

  lemma ReapWaiting<T>(s: Sched<T>, c: T)
    requires Inv(s) && s.current == Some(c)
    ensures var q := Reap(s, c);
            && Inv(q) && q.current == s.current && q.idle == s.idle
            && forall t :: Waiting(q, t) <==> Waiting(s, t)
  {
    ReapKeeps(s, c);
  }

  lemma NearestBeforeReap<T>(s: Sched<T>, c: T, n: T)
    requires Inv(s) && s.current == Some(c) && Inv(Reap(s, c)) && c in Reap(s, c).ring && Nearest(Reap(s, c), c, n)
    ensures Nearest(s, c, n)
  {
    var q := Reap(s, c);
    ReapWaiting(s, c);
    WaiterPlaced(s, n);
    forall t | Waiting(s, t) && t in s.ring ensures Dist(s.ring, c, n) <= Dist(s.ring, c, t) {
      WaiterPlaced(q, t);
      if s.dead.Some? && s.dead != Some(c) {
        RemovalOrder(s.ring, s.dead.value, c, n, t);
      }
    }
  }

  lemma ScheduleNext<T>(s: Sched<T>)
    requires Inv(s) && s.current.Some?
    ensures var c, r := s.current.value, Schedule(s);
            if Somebody(s) then r.current.Some? && Nearest(s, c, r.current.value) else r.current == s.current
  {
    var c := s.current.value;
    ReapWaiting(s, c);
    var q := Reap(s, c);
    var m := q.(state := q.state[c := Ready]);
    SameNext(q, m);
    LeavingNext(q, m, c, Ready);
    ScheduleShape(s);
    GivenMoves(s, c);
    if Somebody(s) {
      var w :| w in s.state && Waiting(s, w);
      assert Waiting(q, w);
      NearestBeforeReap(s, c, NextTask(q));
    } else {
      assert !Somebody(q);
    }
  }

  lemma SwitchCurrent<T>(m: Sched<T>, c: T, n: T)
    requires m.dead.Some? ==> m.dead.value in m.ring
    ensures c != n ==> Switch(m, c, n).current == Some(n)
  {
  }

  /** The processor changes hands only on a tick, an exit or the current task blocking, and then goes to the nearest
      waiting task along the ring; with nobody waiting it stays where it is on a tick and goes to the idle task
      otherwise. The first task enqueued gets it at once. */
  lemma StepRuns<T>(s: Sched<T>, op: Op<T>)
    requires Inv(s) && Legal(s, op)
    ensures var r := Step(s, op);
            if s.current == None then
              r.current == if op.DoEnqueue? && s.state[op.t].New? then Some(op.t) else None
            else if !Yields(s, op) then r.current == s.current
            else if Somebody(s) then r.current.Some? && Nearest(s, s.current.value, r.current.value)
            else r.current == if op.DoSchedule? then s.current else Some(s.idle)
  {
    match op
    case DoCreate(u) =>
    case DoEnqueue(u) =>
    case DoSchedule =>
      if s.current.Some? { ScheduleNext(s); }
    case DoBlock(u) =>
      if s.current == Some(u) && u != s.idle {
        var m := s.(state := s.state[u := Blocked]);
        BlockKeeps(s, u);
        LeavingNext(s, m, u, Blocked);
        SwitchCurrent(m, u, NextTask(m));
      }
    case DoWake(u) =>
    case DoExit =>
      var c := s.current.value;
      var m := s.(state := s.state[c := Zombie], dead := Some(c));
      NextRuns(m);
      LeavingNext(s, m, c, Zombie);
      SwitchCurrent(m, c, NextTask(m));
  }

  // ----- over runs

  /** t has exited and its memory is still in use. */
  ghost predicate IsZombie<T>(s: Sched<T>, t: T) {
    t in s.state && s.state[t].Zombie?
  }

  lemma ZombieStep<T>(s: Sched<T>, op: Op<T>, t: T)
    requires Inv(s) && Legal(s, op) && IsZombie(s, t)
    ensures var r := Step(s, op);
            && Inv(r) && r.current != Some(t)
            && if Frees(s, op) && s.dead == Some(t) then t !in r.state
               else IsZombie(r, t) && (s.dead != Some(t) ==> r.dead != Some(t))
                    && (s.dead == Some(t) && !op.DoExit? ==> r.dead == Some(t))
  {
    StepKeepsInv(s, op);
    StepMemory(s, op);
    StepStates(s, op);
    ZombieNeverRuns(s, op, t);
  }

  /** A zombie in the dead slot is freed by the next tick, unless another task exits before. */
  lemma {:induction false} ZombieIsFreed<T>(s: Sched<T>, ops: seq<Op<T>>, t: T)
    requires Inv(s) && LegalRun(s, ops) && s.dead == Some(t)
    requires DoSchedule in ops && DoExit !in ops && DoCreate(t) !in ops
    ensures t !in Run(s, ops).state
    decreases ops
  {
    StepKeepsInv(s, ops[0]);
    ZombieStep(s, ops[0], t);
    var r := Step(s, ops[0]);
    if t in r.state {
      ZombieIsFreed(r, ops[1..], t);
    } else {
      StaysAway(r, ops[1..], t);
    }
  }

  lemma {:induction false} StaysAway<T>(s: Sched<T>, ops: seq<Op<T>>, t: T)
    requires Inv(s) && LegalRun(s, ops) && t !in s.state && DoCreate(t) !in ops
    ensures t !in Run(s, ops).state
    decreases ops
  {
    if ops != [] {
      StepKeepsInv(s, ops[0]);
      StepMemory(s, ops[0]);
      StaysAway(Step(s, ops[0]), ops[1..], t);
    }
  }

  /** So a task that exits is gone after the next tick. */
  lemma ExitIsFreed<T>(s: Sched<T>, ops: seq<Op<T>>, t: T)
    requires Inv(s) && LegalRun(s, ops) && ops != [] && ops[0] == DoExit && s.current == Some(t)
    requires DoSchedule in ops[1..] && DoExit !in ops[1..] && DoCreate(t) !in ops[1..]
    ensures t !in Run(s, ops).state
  {
    StepKeepsInv(s, DoExit);
    StepMemory(s, DoExit);
    ZombieIsFreed(Step(s, DoExit), ops[1..], t);
  }

  /** A zombie that has lost the dead slot to another one is never freed. */
  lemma {:induction false} LostZombieStays<T>(s: Sched<T>, ops: seq<Op<T>>, t: T)
    requires Inv(s) && LegalRun(s, ops) && IsZombie(s, t) && s.dead != Some(t)
    ensures IsZombie(Run(s, ops), t)
    decreases ops
  {
    if ops != [] {
      StepKeepsInv(s, ops[0]);
      ZombieStep(s, ops[0], t);
      LostZombieStays(Step(s, ops[0]), ops[1..], t);
    }
  }

  /** Two exits with nothing reaped in between lose the first zombie. */
  lemma SecondExitLoses<T>(s: Sched<T>, ops: seq<Op<T>>, t: T)
    requires Inv(s) && LegalRun(s, ops) && ops != [] && ops[0] == DoExit && s.dead == Some(t)
    ensures IsZombie(Run(s, ops), t)
  {
    StepKeepsInv(s, DoExit);
    StepMemory(s, DoExit);
    ZombieStep(s, DoExit, t);
    DeadIsNotCurrent(s);
    LostZombieStays(Step(s, DoExit), ops[1..], t);
  }

  /** A blocked task gets no processor until it is woken. */
  lemma {:induction false} BlockedUntilWoken<T>(s: Sched<T>, ops: seq<Op<T>>, t: T)
    requires Inv(s) && LegalRun(s, ops) && t in s.state && s.state[t].Blocked? && DoWake(t) !in ops
    ensures t in Run(s, ops).state && Run(s, ops).state[t].Blocked? && !GetsProcessor(s, ops, t)
    decreases ops
  {
    if ops != [] {
      StepKeepsInv(s, ops[0]);
      BlockedStays(s, ops[0], t);
      BlockedUntilWoken(Step(s, ops[0]), ops[1..], t);
    }
  }

  lemma BlockedStays<T>(s: Sched<T>, op: Op<T>, t: T)
    requires Inv(s) && Legal(s, op) && t in s.state && s.state[t].Blocked? && op != DoWake(t)
    ensures var r := Step(s, op); t in r.state && r.state[t].Blocked?
  {
    NotChosen(s, op, t);
    LivingStays(s, op, t);
    StepStates(s, op);
  }

  lemma NotChosen<T>(s: Sched<T>, op: Op<T>, t: T)
    requires Inv(s) && Legal(s, op) && t in s.state && s.state[t].Blocked?
    ensures Step(s, op).current != Some(t)
  {
    StepRuns(s, op);
  }

  /** Only zombies leave memory. */
  lemma LivingStays<T>(s: Sched<T>, op: Op<T>, t: T)
    requires Inv(s) && Legal(s, op) && t in s.state && !s.state[t].Zombie?
    ensures t in Step(s, op).state
  {
    StepMemory(s, op);
  }

  /** A woken task waits, and an enqueued one too, behind everybody else. */
  lemma WokenWaits<T>(s: Sched<T>, t: T)
    requires Inv(s) && t in s.state && s.state[t].Blocked?
    ensures Inv(Wake(s, t)) && Waiting(Wake(s, t), t)
  {
    StepKeepsInv(s, DoWake(t));
    StepStates(s, DoWake(t));
    StepRuns(s, DoWake(t));
    StepMemory(s, DoWake(t));
  }

  lemma EnqueuedWaits<T>(s: Sched<T>, t: T)
    requires Inv(s) && s.current.Some? && t in s.state && s.state[t].New?
    ensures var r := Enqueue(s, t); Inv(r) && Waiting(r, t) && r.ring == s.ring + [t]
  {
    StepKeepsInv(s, DoEnqueue(t));
    StepStates(s, DoEnqueue(t));
    StepRuns(s, DoEnqueue(t));
    StepMemory(s, DoEnqueue(t));
  }
}
