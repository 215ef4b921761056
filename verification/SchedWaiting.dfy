/** Liveness and memory safety of the scheduler: how long a ready task can wait, and when the memory of
    an exited task is released. */
module SchedWaiting {
  import opened Words
  import opened SchedSpec

  // ----- distances on the ring

  /** How many steps along next lead from a to b. */
  function Dist<T(==)>(ring: seq<T>, a: T, b: T): nat
    requires a in ring && b in ring
  {
    var i, j := IndexOf(ring, a), IndexOf(ring, b);
    if i <= j then j - i else j + |ring| - i
  }

  lemma RemovalShrinks<T>(ring: seq<T>, d: T, a: T, b: T)
    requires Distinct(ring) && d in ring && a in ring && b in ring && d != a && d != b
    ensures var r := Without(ring, d); a in r && b in r && Dist(r, a, b) <= Dist(ring, a, b)
  {
    WithoutDistinct(ring, d);
    RemovalIndex(ring, d, a);
    RemovalIndex(ring, d, b);
  }

  lemma RemovalIndex<T>(ring: seq<T>, d: T, x: T)
    requires Distinct(ring) && d in ring && x in ring && x != d
    ensures x in Without(ring, d)
    ensures IndexOf(Without(ring, d), x) == if IndexOf(ring, x) < IndexOf(ring, d) then IndexOf(ring, x)
                                            else IndexOf(ring, x) - 1
  {
    WithoutDistinct(ring, d);
    var i, k := IndexOf(ring, x), IndexOf(ring, d);
    IndexUnique(Without(ring, d), x, if i < k then i else i - 1);
  }

  lemma AppendStretches<T>(ring: seq<T>, x: T, a: T, b: T)
    requires Distinct(ring) && x !in ring && a in ring && b in ring
    ensures var r := ring + [x]; a in r && b in r && Dist(r, a, b) <= Dist(ring, a, b) + 1
  {
    IndexUnique(ring + [x], a, IndexOf(ring, a));
    IndexUnique(ring + [x], b, IndexOf(ring, b));
  }

  lemma DistSlot<T>(ring: seq<T>, c: T, t: T)
    requires Distinct(ring) && c in ring && t in ring
    ensures Dist(ring, c, t) < |ring| && Slot(ring, IndexOf(ring, c), Dist(ring, c, t)) == t
    ensures c != t ==> Dist(ring, c, t) > 0
  {
  }

  lemma SlotShift<T>(ring: seq<T>, i: nat, k: nat)
    requires i < |ring| && k + 1 < |ring|
    ensures Slot(ring, Wrap(|ring|, i + 1), k) == Slot(ring, i, k + 1)
  {
  }

  lemma ScanStopsBy<T>(s: Sched<T>, i: nat, k: nat)
    requires i < |s.ring| && k < |s.ring| && Runnable(s, Slot(s.ring, i, k))
    ensures Scan(s, i, |s.ring|) <= k
  {
  }

  lemma NextWithin<T>(s: Sched<T>, c: T, t: T) returns (k: nat)
    requires RingOk(s) && s.current == Some(c) && c in s.ring && t in s.ring && t != c && Runnable(s, t)
    ensures 0 < k <= Dist(s.ring, c, t) < |s.ring|
    ensures NextTask(s) == Slot(s.ring, IndexOf(s.ring, c), k) && Runnable(s, NextTask(s))
  {
    var ring := s.ring;
    var i := IndexOf(ring, c);
    var d := Dist(ring, c, t);
    DistSlot(ring, c, t);
    SlotShift(ring, i, d - 1);
    ScanStopsBy(s, StartSlot(s), d - 1);
    var m := Scan(s, StartSlot(s), |ring|);
    SlotShift(ring, i, m);
    k := m + 1;
  }

  /** The task chosen next is strictly closer to a waiting task than the current one is. */
  lemma NextIsCloser<T>(s: Sched<T>, c: T, t: T)
    requires RingOk(s) && s.current == Some(c) && c in s.ring && t in s.ring && t != c && Runnable(s, t)
    ensures var n := NextTask(s); n in s.ring && Dist(s.ring, n, t) < Dist(s.ring, c, t) && Runnable(s, n)
  {
    var k := NextWithin(s, c, t);
    var i := IndexOf(s.ring, c);
    IndexUnique(s.ring, NextTask(s), Wrap(|s.ring|, i + k));
    MidwayDist(|s.ring|, i, IndexOf(s.ring, t), k);
  }

  /** Moving k of the d steps from slot i towards slot j leaves d - k. */
  lemma MidwayDist(n: nat, i: nat, j: nat, k: nat)
    requires i < n && j < n && 0 < k <= (if i <= j then j - i else j + n - i)
    ensures var m := Wrap(n, i + k);
            m < n && (if m <= j then j - m else j + n - m) == (if i <= j then j - i else j + n - i) - k
  {
  }

  // ----- bounded waiting

  ghost predicate Waiting<T>(s: Sched<T>, t: T) {
    t != s.idle && t in s.state && s.state[t].Ready?
  }

  /** Ring distance from the current task to t. */
  ghost function Ahead<T>(s: Sched<T>, t: T): nat
    requires Inv(s) && Waiting(s, t)
  {
    WaiterPlaced(s, t);
    Dist(s.ring, s.current.value, t)
  }

  lemma WaiterPlaced<T>(s: Sched<T>, t: T)
    requires Inv(s) && Waiting(s, t)
    ensures t in s.ring && s.current.Some? && s.current.value in s.ring && s.current != Some(t)
  {
    assert t in s.ring;
    var k := IndexOf(s.ring, t);
  }

  function Switched<T(==)>(s: Sched<T>, r: Sched<T>): nat {
    if s.current != r.current then 1 else 0
  }

  function Enqueues<T>(op: Op<T>): nat {
    if op.DoEnqueue? then 1 else 0
  }

  /** The step gives the processor away: a timer tick, an exit, or the current task blocking. */
  ghost predicate Yields<T>(s: Sched<T>, op: Op<T>) {
    op.DoSchedule? || op.DoExit? || (op.DoBlock? && s.current == Some(op.t) && op.t != s.idle)
  }

  /** t keeps waiting in r and is closer by one, or t is the current task of r. */
  ghost predicate Closer<T>(s: Sched<T>, r: Sched<T>, t: T)
    requires Inv(s) && Waiting(s, t) && Inv(r)
  {
    r.current == Some(t) || (Waiting(r, t) && Ahead(r, t) < Ahead(s, t) && r.current != s.current)
  }

  lemma LeavingCloser<T>(s: Sched<T>, m: Sched<T>, c: T, st: TaskState, t: T)
    requires Leaving(s, m, c, st) && Waiting(s, t)
    requires NextTask(m) != c
    ensures m.dead.Some? ==> m.dead.value in m.ring
    ensures Inv(Switch(m, c, NextTask(m))) && Closer(s, Switch(m, c, NextTask(m)), t)
  {
    SwitchKeeps(s, m, c, st);
    WaiterPlaced(s, t);
    NextIsCloser(m, c, t);
    var n := NextTask(m);
    if n != t && m.dead.Some? && m.dead != Some(c) {
      assert m.dead.value != n && m.dead.value != t;
      RemovalShrinks(m.ring, m.dead.value, n, t);
    }
  }

  lemma ReapNoFurther<T>(s: Sched<T>, c: T, t: T)
    requires Inv(s) && s.current == Some(c) && Waiting(s, t)
    ensures Inv(Reap(s, c)) && Waiting(Reap(s, c), t) && Ahead(Reap(s, c), t) <= Ahead(s, t)
  {
    ReapKeeps(s, c);
    WaiterPlaced(s, t);
    if s.dead.Some? && s.dead != Some(c) {
      RemovalShrinks(s.ring, s.dead.value, c, t);
    }
  }

  lemma ScheduleCloser<T>(s: Sched<T>, t: T)
    requires Inv(s) && Waiting(s, t)
    ensures Inv(Schedule(s)) && Closer(s, Schedule(s), t)
  {
    WaiterPlaced(s, t);
    var c := s.current.value;
    ReapNoFurther(s, c, t);
    var q := Reap(s, c);
    WaiterPlaced(q, t);
    var m := q.(state := q.state[c := Ready]);
    SameNext(q, m);
    NextIsCloser(m, c, t);
    DistSlot(q.ring, c, t);
    CurrentIsFarthest(q.ring, c, t, NextTask(m));
    LeavingCloser(q, m, c, Ready, t);
  }

  lemma CurrentIsFarthest<T>(ring: seq<T>, c: T, t: T, n: T)
    requires c in ring && t in ring && n in ring && Dist(ring, n, t) < Dist(ring, c, t)
    ensures n != c
  {
  }

  /** A waiting task either stays waiting, no further away than one place per enqueue and one place
      closer per switch; or it gets the processor; or it is blocked by that very call. */
  lemma StepCloser<T>(s: Sched<T>, op: Op<T>, t: T)
    requires Inv(s) && Legal(s, op) && Waiting(s, t) && op != DoBlock(t)
    ensures var r := Step(s, op);
            && Inv(r)
            && (r.current != Some(t) ==>
                  Waiting(r, t) && Ahead(r, t) + Switched(s, r) <= Ahead(s, t) + Enqueues(op))
            && (Yields(s, op) ==> Switched(s, r) == 1)
  {
    StepKeepsInv(s, op);
    WaiterPlaced(s, t);
    match op
    case DoCreate(u) =>
    case DoEnqueue(u) =>
      if u !in s.ring {
        AppendStretches(s.ring, u, s.current.value, t);
      }
    case DoSchedule =>
      ScheduleCloser(s, t);
    case DoBlock(u) =>
      if Yields(s, op) {
        var m := s.(state := s.state[u := Blocked]);
        BlockKeeps(s, u);
        LeavingCloser(s, m, u, Blocked, t);
      }
    case DoWake(u) =>
    case DoExit =>
      var c := s.current.value;
      var m := s.(state := s.state[c := Zombie], dead := Some(c));
      NextRuns(m);
      LeavingCloser(s, m, c, Zombie, t);
  }

  ghost function RunSwitches<T>(s: Sched<T>, ops: seq<Op<T>>): nat
    requires Inv(s) && LegalRun(s, ops)
    decreases ops
  {
    if ops == [] then 0 else
      StepKeepsInv(s, ops[0]);
      Switched(s, Step(s, ops[0])) + RunSwitches(Step(s, ops[0]), ops[1..])
  }

  ghost function RunEnqueues<T>(ops: seq<Op<T>>): nat {
    if ops == [] then 0 else Enqueues(ops[0]) + RunEnqueues(ops[1..])
  }

  /** Some state of the run has t as its current task. */
  ghost predicate GetsProcessor<T>(s: Sched<T>, ops: seq<Op<T>>, t: T)
    requires Inv(s) && LegalRun(s, ops)
    decreases ops
  {
    s.current == Some(t) ||
    (ops != [] && (StepKeepsInv(s, ops[0]); GetsProcessor(Step(s, ops[0]), ops[1..], t)))
  }

  /** A ready task that nobody blocks gets the processor before the number of switches reaches its ring
      distance from the current task plus the number of enqueues meanwhile. */
  lemma {:induction false} BoundedWaiting<T>(s: Sched<T>, ops: seq<Op<T>>, t: T)
    requires Inv(s) && LegalRun(s, ops) && Waiting(s, t) && DoBlock(t) !in ops
    requires RunSwitches(s, ops) >= Ahead(s, t) + RunEnqueues(ops)
    ensures GetsProcessor(s, ops, t)
    decreases ops
  {
    WaiterPlaced(s, t);
    DistSlot(s.ring, s.current.value, t);
    if ops != [] {
      StepCloser(s, ops[0], t);
      var r := Step(s, ops[0]);
      if r.current != Some(t) {
        BoundedWaiting(r, ops[1..], t);
      }
    }
  }

  // ----- reaping

  /** What one step may free: at most one task, a zombie, off the ring, and neither the task that was
      running nor the one running now. */
  ghost predicate ReapsSafely<T>(s: Sched<T>, r: Sched<T>)
    requires Inv(s)
  {
    (r.reaped == s.reaped && r.state.Keys == s.state.Keys) ||
    (&& |r.reaped| == |s.reaped| + 1 && r.reaped[..|s.reaped|] == s.reaped
     && var d := r.reaped[|s.reaped|];
     && d in s.ring && s.state[d].Zombie? && d !in r.ring && r.state.Keys == s.state.Keys - {d}
     && d != s.idle && s.current != Some(d) && r.current != Some(d))
  }

  /** Moving the processor between tasks in use frees nothing more. */
  lemma MovingIsSafe<T>(s: Sched<T>, q: Sched<T>, r: Sched<T>)
    requires Inv(s) && ReapsSafely(s, q)
    requires r.reaped == q.reaped && r.ring == q.ring && r.state.Keys == q.state.Keys
    requires r.current.Some? && r.current.value in q.state
    ensures ReapsSafely(s, r)
  {
  }

  lemma LeavingFrees<T>(s: Sched<T>, m: Sched<T>, c: T, st: TaskState)
    requires Leaving(s, m, c, st)
    ensures m.dead.Some? ==> m.dead.value in m.ring
    ensures ReapsSafely(s, Reap(m, c))
  {
    if m.dead.Some? && m.dead != Some(c) {
      WithoutDistinct(m.ring, m.dead.value);
    }
  }

  lemma SwitchReapsSafely<T>(s: Sched<T>, m: Sched<T>, c: T, st: TaskState)
    requires Leaving(s, m, c, st)
    requires NextTask(m) != c
    ensures m.dead.Some? ==> m.dead.value in m.ring
    ensures ReapsSafely(s, Switch(m, c, NextTask(m)))
  {
    LeavingOk(s, m, c, st);
    LeavingReaped(s, m, c, st);
    LeavingFrees(s, m, c, st);
    var n := NextTask(m);
    assert n in s.state;
    MovingIsSafe(s, Reap(m, c), Switch(m, c, n));
  }

  lemma ReapReapsSafely<T>(s: Sched<T>, c: T)
    requires Inv(s) && s.current == Some(c)
    ensures ReapsSafely(s, Reap(s, c)) && Inv(Reap(s, c)) && Reap(s, c).dead == None
    ensures forall t :: t in Reap(s, c).state ==> t in s.state && Reap(s, c).state[t] == s.state[t]
    ensures forall t :: t in s.state && t !in Reap(s, c).state ==> t in Reap(s, c).reaped
  {
    ReapKeeps(s, c);
    if s.dead.Some? {
      WithoutDistinct(s.ring, s.dead.value);
    }
  }

  function Given<T>(q: Sched<T>, c: T, n: T): Sched<T> {
    if n == c then q else q.(current := Some(n), state := q.state[c := Ready][n := Running])
  }

  lemma ScheduleShape<T>(s: Sched<T>)
    requires Inv(s) && s.current.Some?
    ensures var c := s.current.value;
            var q := Reap(s, c);
            && q.ring != [] && (q.current.Some? ==> q.current.value in q.ring)
            && Schedule(s) == Given(q, c, NextTask(q))
  {
    var c := s.current.value;
    ReapReapsSafely(s, c);
    var q := Reap(s, c);
    assert q.dead == None && q.(state := q.state[c := Ready]).dead == None;
  }

  /** After its own reap, schedule only moves the processor between two tasks in use. */
  lemma GivenMoves<T>(s: Sched<T>, c: T)
    requires Inv(s) && s.current == Some(c)
    ensures var q := Reap(s, c);
            && q.ring != [] && (q.current.Some? ==> q.current.value in q.ring)
            && var r := Given(q, c, NextTask(q));
            && r.ring == q.ring && r.reaped == q.reaped && r.state.Keys == q.state.Keys
            && r.current.Some? && r.current.value in q.state && !q.state[r.current.value].Zombie?
            && forall t :: t in q.state && q.state[t].Zombie? ==> r.state[t].Zombie?
  {
    ReapReapsSafely(s, c);
    var q := Reap(s, c);
    NextRuns(q);
    var n := NextTask(q);
    assert n in q.state && !q.state[n].Zombie?;
    GivenSame(q, c, n);
  }

  lemma GivenSame<T>(q: Sched<T>, c: T, n: T)
    requires q.current == Some(c) && c in q.state && n in q.state
    requires !q.state[c].Zombie? && !q.state[n].Zombie?
    ensures var r := Given(q, c, n);
            && r.ring == q.ring && r.reaped == q.reaped && r.state.Keys == q.state.Keys && r.current == Some(n)
            && forall t :: t in q.state && q.state[t].Zombie? ==> r.state[t].Zombie?
  {
  }

  lemma ScheduleReapsSafely<T>(s: Sched<T>)
    requires Inv(s)
    ensures ReapsSafely(s, Schedule(s))
  {
    if s.current.Some? {
      var c := s.current.value;
      ReapReapsSafely(s, c);
      ScheduleShape(s);
      GivenMoves(s, c);
      var q := Reap(s, c);
      MovingIsSafe(s, q, Given(q, c, NextTask(q)));
    }
  }

  /** Every step but a creation frees at most one task, and only safely. */
  lemma StepReapsSafely<T>(s: Sched<T>, op: Op<T>)
    requires Inv(s) && Legal(s, op) && !op.DoCreate?
    ensures ReapsSafely(s, Step(s, op))
  {
    match op
    case DoEnqueue(u) =>
    case DoSchedule =>
      ScheduleReapsSafely(s);
    case DoBlock(u) =>
      if s.current == Some(u) && u != s.idle {
        BlockKeeps(s, u);
        SwitchReapsSafely(s, s.(state := s.state[u := Blocked]), u, Blocked);
      }
    case DoWake(u) =>
    case DoExit =>
      var c := s.current.value;
      var m := s.(state := s.state[c := Zombie], dead := Some(c));
      NextRuns(m);
      SwitchReapsSafely(s, m, c, Zombie);
  }

  ghost predicate EveryStepReapsSafely<T>(s: Sched<T>, ops: seq<Op<T>>)
    requires Inv(s) && LegalRun(s, ops)
    decreases ops
  {
    ops == [] ||
    (StepKeepsInv(s, ops[0]);
     (ops[0].DoCreate? || ReapsSafely(s, Step(s, ops[0]))) && EveryStepReapsSafely(Step(s, ops[0]), ops[1..]))
  }

  lemma {:induction false} RunReapsSafely<T>(s: Sched<T>, ops: seq<Op<T>>)
    requires Inv(s) && LegalRun(s, ops)
    ensures EveryStepReapsSafely(s, ops)
    decreases ops
  {
    if ops != [] {
      StepKeepsInv(s, ops[0]);
      if !ops[0].DoCreate? {
        StepReapsSafely(s, ops[0]);
      }
      RunReapsSafely(Step(s, ops[0]), ops[1..]);
    }
  }

  // ----- frees and creations

  function Count<T(==)>(xs: seq<T>, t: T): nat {
    multiset(xs)[t]
  }

  /** 1 while the memory of t is in use. */
  function InUse<T(==)>(s: Sched<T>, t: T): nat {
    if t in s.state then 1 else 0
  }

  function Creates<T(==)>(op: Op<T>, t: T): nat {
    if op == DoCreate(t) then 1 else 0
  }

  function Creations<T(==)>(ops: seq<Op<T>>, t: T): nat {
    if ops == [] then 0 else Creates(ops[0], t) + Creations(ops[1..], t)
  }

  /** A step frees and creates in balance. */
  lemma StepBalances<T>(s: Sched<T>, op: Op<T>, t: T)
    requires Inv(s) && Legal(s, op)
    ensures var r := Step(s, op); Count(r.reaped, t) + InUse(r, t) == Count(s.reaped, t) + InUse(s, t) + Creates(op, t)
  {
    if !op.DoCreate? {
      StepReapsSafely(s, op);
      SafeBalances(s, Step(s, op), t);
    }
  }

  lemma SafeBalances<T>(s: Sched<T>, r: Sched<T>, t: T)
    requires Inv(s) && ReapsSafely(s, r)
    ensures Count(r.reaped, t) + InUse(r, t) == Count(s.reaped, t) + InUse(s, t)
  {
    if r.reaped != s.reaped {
      var d := r.reaped[|s.reaped|];
      assert r.reaped == s.reaped + [d];
      assert t in r.state <==> t in s.state && t != d;
    }
  }

  lemma {:induction false} RunBalances<T>(s: Sched<T>, ops: seq<Op<T>>, t: T)
    requires Inv(s) && LegalRun(s, ops)
    ensures var r := Run(s, ops);
            Count(r.reaped, t) + InUse(r, t) == Count(s.reaped, t) + InUse(s, t) + Creations(ops, t)
    decreases ops
  {
    if ops != [] {
      StepKeepsInv(s, ops[0]);
      StepBalances(s, ops[0], t);
      RunBalances(Step(s, ops[0]), ops[1..], t);
    }
  }

  /** Over any run from boot, also one in which the memory of freed tasks is handed out again: a task is freed
      exactly as often as it was created, but for one creation while it is in use; the idle task is never
      freed. Every single free is safe. */
  lemma FreedOnce<T>(idle: T, ops: seq<Op<T>>, t: T)
    requires LegalRun(Booted(idle), ops)
    ensures EveryStepReapsSafely(Booted(idle), ops)
    ensures var r := Run(Booted(idle), ops);
            if t == idle then Count(r.reaped, t) == Creations(ops, t) == 0
            else Count(r.reaped, t) + InUse(r, t) == Creations(ops, t)
  {
    RunReapsSafely(Booted(idle), ops);
    RunBalances(Booted(idle), ops, t);
    if t == idle {
      IdleStays(Booted(idle), ops);
    }
  }

  lemma SameIdle<T>(s: Sched<T>, op: Op<T>)
    requires Inv(s) && Legal(s, op)
    ensures Step(s, op).idle == s.idle && op != DoCreate(s.idle)
  {
  }

  lemma {:induction false} IdleStays<T>(s: Sched<T>, ops: seq<Op<T>>)
    requires Inv(s) && LegalRun(s, ops)
    ensures Creations(ops, s.idle) == 0 && Run(s, ops).idle == s.idle
    decreases ops
  {
    if ops != [] {
      StepKeepsInv(s, ops[0]);
      SameIdle(s, ops[0]);
      IdleStays(Step(s, ops[0]), ops[1..]);
    }
  }

  ghost predicate StaysDead<T>(r: Sched<T>, t: T) {
    r.current != Some(t) && if t in r.state then r.state[t].Zombie? else t in r.reaped
  }

  lemma SwitchStaysDead<T>(s: Sched<T>, m: Sched<T>, c: T, st: TaskState, t: T)
    requires Leaving(s, m, c, st) && t in s.state && s.state[t].Zombie?
    requires NextTask(m) != c
    ensures m.dead.Some? ==> m.dead.value in m.ring
    ensures StaysDead(Switch(m, c, NextTask(m)), t)
  {
    NextRuns(m);
  }

  lemma ScheduleStaysDead<T>(s: Sched<T>, t: T)
    requires Inv(s) && t in s.state && s.state[t].Zombie?
    ensures StaysDead(Schedule(s), t)
  {
    if s.current.Some? {
      ReapReapsSafely(s, s.current.value);
      ScheduleShape(s);
      GivenMoves(s, s.current.value);
    }
  }

  /** A zombie stays a zombie until it is freed: it never runs again, so the code after the switch in
      exit is never reached. */
  lemma ZombieNeverRuns<T>(s: Sched<T>, op: Op<T>, t: T)
    requires Inv(s) && Legal(s, op) && t in s.state && s.state[t].Zombie?
    ensures StaysDead(Step(s, op), t)
  {
    match op
    case DoCreate(u) =>
    case DoEnqueue(u) =>
    case DoSchedule =>
      ScheduleStaysDead(s, t);
    case DoBlock(u) =>
      if s.current == Some(u) && u != s.idle {
        BlockKeeps(s, u);
        SwitchStaysDead(s, s.(state := s.state[u := Blocked]), u, Blocked, t);
      }
    case DoWake(u) =>
    case DoExit =>
      var c := s.current.value;
      var m := s.(state := s.state[c := Zombie], dead := Some(c));
      NextRuns(m);
      SwitchStaysDead(s, m, c, Zombie, t);
  }
}
