/** The round-robin scheduler as a state machine over values. The ring is listed from the idle task,
    which is inserted first, to the task the kernel calls task_ptr, after which new tasks go. */
module SchedSpec {
  import opened Words

  datatype TaskState = New | Ready | Running | Blocked | Zombie

  datatype Sched<T> = Sched(
    idle: T,
    ring: seq<T>,
    state: map<T, TaskState>,   // every task whose memory is in use
    current: Option<T>,
    dead: Option<T>,
    reaped: seq<T>)             // the frees so far, in order

  // ----- sequences used as rings

  function IndexOf<T(==)>(xs: seq<T>, x: T): (i: nat)
    requires x in xs
    ensures i < |xs| && xs[i] == x
  {
    if xs[0] == x then 0 else 1 + IndexOf(xs[1..], x)
  }

  lemma IndexUnique<T>(xs: seq<T>, x: T, i: nat)
    requires Distinct(xs) && i < |xs| && xs[i] == x
    ensures IndexOf(xs, x) == i
  {
  }

  function Without<T(==)>(xs: seq<T>, x: T): (r: seq<T>)
    requires x in xs
  {
    var i := IndexOf(xs, x);
    xs[..i] + xs[i + 1..]
  }

  lemma WithoutDistinct<T>(xs: seq<T>, x: T)
    requires Distinct(xs) && x in xs
    ensures Distinct(Without(xs, x)) && |Without(xs, x)| == |xs| - 1
    ensures forall y :: y in Without(xs, x) <==> y in xs && y != x
  {
    var i := IndexOf(xs, x);
    var r := Without(xs, x);
    forall y | y in xs && y != x ensures y in r {
      var k := IndexOf(xs, y);
      assert r[if k < i then k else k - 1] == y;
    }
    forall k | 0 <= k < |r| ensures r[k] in xs && r[k] != x {
      assert r[k] == xs[if k < i then k else k + 1];
    }
  }

  /** Position x on a ring of n slots, for x less than 2n. */
  function Wrap(n: nat, x: nat): nat {
    if x < n then x else x - n
  }

  // ----- operations

  predicate Runnable<T>(s: Sched<T>, t: T) {
    t in s.state && (s.state[t].Ready? || s.state[t].Running?) && t != s.idle
  }

  /** The task k places after slot i. */
  function Slot<T>(ring: seq<T>, i: nat, k: nat): T
    requires i < |ring| && k < |ring|
  {
    ring[Wrap(|ring|, i + k)]
  }

  /** Offset from slot i of the first runnable task among the next n slots, or n. */
  function Scan<T>(s: Sched<T>, i: nat, n: nat): (k: nat)
    requires i < |s.ring| && n <= |s.ring|
    ensures k <= n
    ensures k < n ==> Runnable(s, Slot(s.ring, i, k))
    ensures forall m :: 0 <= m < k ==> !Runnable(s, Slot(s.ring, i, m))
    decreases n
  {
    if n == 0 || Runnable(s, s.ring[i]) then 0
    else
      var next := Wrap(|s.ring|, i + 1);
      var k := Scan(s, next, n - 1);
      assert forall m :: 0 < m < n ==> Slot(s.ring, i, m) == Slot(s.ring, next, m - 1);
      k + 1
  }

  lemma ScanIs<T>(s: Sched<T>, i: nat, k: nat)
    requires i < |s.ring| && k <= |s.ring|
    requires k < |s.ring| ==> Runnable(s, Slot(s.ring, i, k))
    requires forall m :: 0 <= m < k ==> !Runnable(s, Slot(s.ring, i, m))
    ensures Scan(s, i, |s.ring|) == k
  {
  }

  function StartSlot<T>(s: Sched<T>): (i: nat)
    requires s.ring != [] && (s.current.Some? ==> s.current.value in s.ring)
    ensures i < |s.ring|
  {
    if s.current.Some? then Wrap(|s.ring|, IndexOf(s.ring, s.current.value) + 1) else 0
  }

  function NextTask<T>(s: Sched<T>): (t: T)
    requires s.ring != [] && (s.current.Some? ==> s.current.value in s.ring)
  {
    var i := StartSlot(s);
    var k := Scan(s, i, |s.ring|);
    if k < |s.ring| then Slot(s.ring, i, k) else s.idle
  }

  function Create<T>(s: Sched<T>, t: T): Sched<T> {
    s.(state := s.state[t := New])
  }

  function Enqueue<T>(s: Sched<T>, t: T): Sched<T>
    requires t in s.state
  {
    if t in s.ring || !s.state[t].New? then s
    else if s.current == None then s.(ring := s.ring + [t], current := Some(t), state := s.state[t := Running])
    else s.(ring := s.ring + [t], state := s.state[t := Ready])
  }

  function Reap<T>(s: Sched<T>, prev: T): Sched<T>
    requires s.dead.Some? ==> s.dead.value in s.ring
  {
    if s.dead == None || s.dead == Some(prev) then s
    else s.(ring := Without(s.ring, s.dead.value), state := s.state - {s.dead.value},
            dead := None, reaped := s.reaped + [s.dead.value])
  }

  function Switch<T>(s: Sched<T>, prev: T, next: T): Sched<T>
    requires s.dead.Some? ==> s.dead.value in s.ring
  {
    var r := Reap(s, prev);
    if prev == next then r else r.(current := Some(next), state := r.state[next := Running])
  }

  function Schedule<T>(s: Sched<T>): Sched<T>
    requires Inv(s)
  {
    if s.current == None then s else
      var c := s.current.value;
      var r := Reap(s, c);
      ReapKeeps(s, c);
      var next := NextTask(r);
      if next == c then r else Switch(r.(state := r.state[c := Ready]), c, next)
  }

  function Block<T>(s: Sched<T>, t: T): Sched<T>
    requires Inv(s) && t in s.state
  {
    if t == s.idle || !(s.state[t].Ready? || s.state[t].Running?) then s else
      var r := s.(state := s.state[t := Blocked]);
      if s.current != Some(t) then r else Switch(r, t, NextTask(r))
  }

  function Wake<T>(s: Sched<T>, t: T): Sched<T>
    requires t in s.state
  {
    if s.state[t].Blocked? then s.(state := s.state[t := Ready]) else s
  }

  function Exit<T>(s: Sched<T>): Sched<T>
    requires Inv(s) && s.current.Some?
  {
    var t := s.current.value;
    var r := s.(state := s.state[t := Zombie], dead := Some(t));
    Switch(r, t, NextTask(r))
  }

  // ----- invariant

  ghost predicate RingOk<T>(s: Sched<T>) {
    && s.ring != [] && s.ring[0] == s.idle && Distinct(s.ring)
    && (forall t :: t in s.ring ==> t in s.state && !s.state[t].New?)
    && (forall t :: t in s.state && t !in s.ring ==> s.state[t].New?)
  }

  ghost predicate CurrentOk<T>(s: Sched<T>) {
    && (s.current == None ==> s.ring == [s.idle] && s.dead == None)
    && (s.current.Some? ==> s.current.value in s.ring)
    && s.idle in s.state && (s.state[s.idle].Ready? || s.state[s.idle].Running?)
    && (forall t :: t in s.state ==> (s.state[t].Running? <==> s.current == Some(t)))
  }

  ghost predicate DeadOk<T>(s: Sched<T>) {
    s.dead.Some? ==> s.dead.value in s.ring && s.dead.value in s.state && s.state[s.dead.value].Zombie?
  }

  ghost predicate Inv<T>(s: Sched<T>) {
    RingOk(s) && CurrentOk(s) && DeadOk(s)
  }

  function Booted<T>(idle: T): (s: Sched<T>)
    ensures Inv(s)
  {
    Sched(idle, [idle], map[idle := Ready], None, None, [])
  }

  lemma ReapKeeps<T>(s: Sched<T>, prev: T)
    requires Inv(s) && s.current == Some(prev)
    ensures Inv(Reap(s, prev))
  {
    if s.dead.Some? && s.dead != Some(prev) {
      var d := s.dead.value;
      WithoutDistinct(s.ring, d);
      HeadStays(s.ring, d);
    }
  }

  lemma HeadStays<T>(xs: seq<T>, x: T)
    requires x in xs && xs[0] != x
    ensures Without(xs, x) != [] && Without(xs, x)[0] == xs[0]
  {
  }

  lemma NextRuns<T>(s: Sched<T>)
    requires RingOk(s) && (s.current.Some? ==> s.current.value in s.ring)
    ensures NextTask(s) in s.ring
    ensures NextTask(s) == s.idle || Runnable(s, NextTask(s))
  {
    assert s.ring[0] in s.ring;
  }

  datatype Op<T> = DoCreate(t: T) | DoEnqueue(t: T) | DoSchedule | DoBlock(t: T) | DoWake(t: T) | DoExit

  /** What a caller must respect: a new task lies in memory that is not in use, other calls name tasks not yet freed,
      and only a task other than the idle task exits. */
  ghost predicate Legal<T>(s: Sched<T>, op: Op<T>) {
    match op
    case DoCreate(t) => t !in s.state
    case DoEnqueue(t) => t in s.state
    case DoSchedule => true
    case DoBlock(t) => t in s.state
    case DoWake(t) => t in s.state
    case DoExit => s.current.Some? && s.current != Some(s.idle)
  }

  function Step<T>(s: Sched<T>, op: Op<T>): Sched<T>
    requires Inv(s) && Legal(s, op)
  {
    match op
    case DoCreate(t) => Create(s, t)
    case DoEnqueue(t) => Enqueue(s, t)
    case DoSchedule => Schedule(s)
    case DoBlock(t) => Block(s, t)
    case DoWake(t) => Wake(s, t)
    case DoExit => Exit(s)
  }

  /** The state r in which the current task c of s has been given state st, just before leaving it. */
  ghost predicate Leaving<T>(s: Sched<T>, r: Sched<T>, c: T, st: TaskState) {
    && Inv(s) && s.current == Some(c)
    && (st.Ready? || c != s.idle) && !st.New? && !st.Running?
    && r == s.(state := s.state[c := st], dead := r.dead)
    && (r.dead == s.dead || (st.Zombie? && r.dead == Some(c)))
  }

  lemma LeavingOk<T>(s: Sched<T>, r: Sched<T>, c: T, st: TaskState)
    requires Leaving(s, r, c, st)
    ensures RingOk(r) && DeadOk(r) && r.current == Some(c) && c in r.ring && r.dead != Some(r.idle)
    ensures NextTask(r) in r.ring && r.dead != Some(NextTask(r))
  {
    NextRuns(r);
  }

  lemma LeavingReaped<T>(s: Sched<T>, r: Sched<T>, c: T, st: TaskState)
    requires Leaving(s, r, c, st)
    ensures r.dead.Some? ==> r.dead.value in r.ring
    ensures var q := Reap(r, c);
            && RingOk(q) && DeadOk(q) && q.current == Some(c) && q.idle == s.idle
            && c in q.ring && s.idle in q.ring
            && (forall t :: t in q.state ==> t in s.state && q.state[t] == r.state[t])
            && (forall t :: t in s.state && r.dead != Some(t) ==> t in q.state)
  {
    if r.dead.Some? && r.dead != Some(c) {
      WithoutDistinct(r.ring, r.dead.value);
      HeadStays(r.ring, r.dead.value);
    }
  }

  /** Nobody runs in q; giving the processor to n restores the invariant. */
  lemma EnterKeeps<T>(q: Sched<T>, n: T)
    requires RingOk(q) && DeadOk(q) && n in q.ring && q.dead != Some(n)
    requires q.idle in q.state && q.state[q.idle].Ready?
    requires forall t :: t in q.state ==> !q.state[t].Running?
    ensures Inv(q.(current := Some(n), state := q.state[n := Running]))
  {
  }

  /** Leaving the current task for the next one keeps the invariant. */
  lemma SwitchKeeps<T>(s: Sched<T>, r: Sched<T>, c: T, st: TaskState)
    requires Leaving(s, r, c, st)
    requires NextTask(r) != c
    ensures r.dead.Some? ==> r.dead.value in r.ring
    ensures Inv(Switch(r, c, NextTask(r)))
  {
    LeavingReaped(s, r, c, st);
    LeavingOk(s, r, c, st);
    var n, q := NextTask(r), Reap(r, c);
    assert n in q.ring by {
      if r.dead.Some? && r.dead != Some(c) {
        WithoutDistinct(r.ring, r.dead.value);
      }
    }
    EnterKeeps(q, n);
  }

  lemma ScheduleKeeps<T>(s: Sched<T>)
    requires Inv(s)
    ensures Inv(Schedule(s))
  {
    if s.current.Some? {
      var c := s.current.value;
      ReapKeeps(s, c);
      var r := Reap(s, c);
      var ready := r.(state := r.state[c := Ready]);
      if NextTask(r) != c {
        SameNext(r, ready);
        SwitchKeeps(r, ready, c, Ready);
      }
    }
  }

  lemma {:induction false} SameScan<T>(s: Sched<T>, r: Sched<T>, i: nat, n: nat)
    requires s.ring == r.ring && i < |s.ring| && n <= |s.ring|
    requires forall t :: t in s.ring ==> (Runnable(s, t) <==> Runnable(r, t))
    ensures Scan(s, i, n) == Scan(r, i, n)
    decreases n
  {
    assert s.ring[i] in s.ring;
    if n > 0 && !Runnable(s, s.ring[i]) {
      SameScan(s, r, Wrap(|s.ring|, i + 1), n - 1);
    }
  }

  /** Marking a running current task as ready does not change which task is next. */
  lemma SameNext<T>(s: Sched<T>, r: Sched<T>)
    requires Inv(s) && s.current.Some? && r == s.(state := s.state[s.current.value := Ready])
    ensures NextTask(s) == NextTask(r)
  {
    SameScan(s, r, StartSlot(s), |s.ring|);
  }

  lemma BlockKeeps<T>(s: Sched<T>, t: T)
    requires Inv(s) && t in s.state
    ensures Inv(Block(s, t))
    ensures t != s.idle && s.current == Some(t) ==> NextTask(s.(state := s.state[t := Blocked])) != t
  {
    var r := s.(state := s.state[t := Blocked]);
    if t != s.idle && s.current == Some(t) {
      NextRuns(r);
      SwitchKeeps(s, r, t, Blocked);
    }
  }

  lemma ExitKeeps<T>(s: Sched<T>)
    requires Inv(s) && s.current.Some? && s.current != Some(s.idle)
    ensures Inv(Exit(s))
    ensures Exit(s).current.Some? && Exit(s).current != s.current
  {
    var t := s.current.value;
    var r := s.(state := s.state[t := Zombie], dead := Some(t));
    NextRuns(r);
    SwitchKeeps(s, r, t, Zombie);
  }

  lemma EnqueueKeeps<T>(s: Sched<T>, t: T)
    requires Inv(s) && t in s.state
    ensures Inv(Enqueue(s, t))
  {
  }

  lemma StepKeepsInv<T>(s: Sched<T>, op: Op<T>)
    requires Inv(s) && Legal(s, op)
    ensures Inv(Step(s, op))
  {
    match op
    case DoCreate(t) =>
    case DoEnqueue(t) => EnqueueKeeps(s, t);
    case DoSchedule => ScheduleKeeps(s);
    case DoBlock(t) => BlockKeeps(s, t);
    case DoWake(t) =>
    case DoExit => ExitKeeps(s);
  }

  // ----- runs

  ghost predicate LegalRun<T>(s: Sched<T>, ops: seq<Op<T>>)
    requires Inv(s)
    decreases ops
  {
    ops == [] || (Legal(s, ops[0]) && (StepKeepsInv(s, ops[0]); LegalRun(Step(s, ops[0]), ops[1..])))
  }

  ghost function Run<T>(s: Sched<T>, ops: seq<Op<T>>): (r: Sched<T>)
    requires Inv(s) && LegalRun(s, ops)
    ensures Inv(r)
    decreases ops
  {
    if ops == [] then s else
      StepKeepsInv(s, ops[0]);
      Run(Step(s, ops[0]), ops[1..])
  }
}
