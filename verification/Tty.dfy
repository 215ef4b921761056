/** The terminal's key ring, written by the keyboard interrupt while a reader takes characters out. */
module TtySpec {
  import opened Words

  const SIZE: nat := 256
  const RETURN: Byte := 13
  const NEWLINE: Byte := 10

  /** Where the reading loop stands: before the emptiness test, between the test and the load of the slot, or
      between the load and the update of the tail. */
  datatype Reader = Waiting | Checked | Loaded(c: Byte)

  /** delivered is everything handed to the caller of tty_read so far. */
  datatype State = State(queue: seq<Byte>, head: nat, tail: nat, reader: Reader, delivered: seq<Byte>)

  /** A key interrupt can come before any step of the reader. */
  datatype Event = Key(c: Byte) | Take

  predicate Ring(s: State) {
    |s.queue| == SIZE && s.head < SIZE && s.tail < SIZE
  }

  function Start(): (r: State)
    ensures Ring(r)
  {
    State(seq<Byte>(256, _ => 0), 0, 0, Waiting, [])
  }

  /** tty_putc, without the early return for 0. */
  function Push(s: State, c: Byte): (r: State)
    requires Ring(s)
    ensures Ring(r)
  {
    s.(queue := s.queue[s.head := if c == RETURN then NEWLINE else c], head := (s.head + 1) % SIZE)
  }

  function ReadStep(s: State): (r: State)
    requires Ring(s)
    ensures Ring(r)
  {
    match s.reader
    case Waiting => if s.head == s.tail then s else s.(reader := Checked)
    case Checked => s.(reader := Loaded(s.queue[s.tail]))
    case Loaded(c) => s.(tail := (s.tail + 1) % SIZE, delivered := s.delivered + [c], reader := Waiting)
  }

  function Step(s: State, e: Event): (r: State)
    requires Ring(s)
    ensures Ring(r)
  {
    match e
    case Key(c) => if c == 0 then s else Push(s, c)
    case Take => ReadStep(s)
  }

  function Run(s: State, events: seq<Event>): (r: State)
    requires Ring(s)
    ensures Ring(r)
  {
    if events == [] then s else Step(Run(s, events[..|events| - 1]), events[|events| - 1])
  }

  /** What the keys of a run should deliver: zeros dropped, carriage returns as newlines. */
  function Typed(events: seq<Event>): seq<Byte> {
    if events == [] then []
    else
      var before := Typed(events[..|events| - 1]);
      match events[|events| - 1]
      case Key(c) => if c == 0 then before else before + [if c == RETURN then NEWLINE else c]
      case Take => before
  }

  /** Characters that were pending in s or typed since, and not yet delivered. */
  function Pending(s: State, q: seq<Byte>, events: seq<Event>): int
    requires Ring(s)
  {
    |q| + |Typed(events)| - |Run(s, events).delivered|
  }

  /** No prefix of the run has more than 255 pending characters. */
  ghost predicate NeverFull(s: State, q: seq<Byte>, events: seq<Event>)
    requires Ring(s)
  {
    forall n :: 0 <= n <= |events| ==> Pending(s, q, events[..n]) <= 255
  }

  /** The slot i places behind the tail. */
  function Slot(s: State, i: nat): Byte
    requires Ring(s)
  {
    s.queue[(s.tail + i) % SIZE]
  }

  /** The ring holds q, starting at the tail, and a loaded character is the oldest of it. */
  predicate Holds(s: State, q: seq<Byte>)
    requires Ring(s)
  {
    && |q| < SIZE
    && s.head == (s.tail + |q|) % SIZE
    && (forall i :: 0 <= i < |q| ==> q[i] == Slot(s, i))
    && (s.reader.Checked? ==> q != [])
    && (s.reader.Loaded? ==> q != [] && q[0] == s.reader.c)
  }

  /** A pushed character joins the queue exactly when fewer than 255 are pending; with 255 pending the ring
      then looks empty. */
  lemma PushFits(s: State, q: seq<Byte>, c: Byte)
    requires Ring(s) && Holds(s, q)
    ensures Holds(Push(s, c), q + [if c == RETURN then NEWLINE else c]) <==> |q| < 255
    ensures |q| == 255 ==> Push(s, c).head == Push(s, c).tail
  {
    var t := Push(s, c);
    if |q| < 255 {
      forall i | 0 <= i < |q|
        ensures Slot(t, i) == q[i]
      {
        assert Slot(s, i) == q[i];
      }
    }
  }

  /** Moving the tail drops the oldest character, whatever was delivered. */
  lemma TailDrops(s: State, q: seq<Byte>, t: State)
    requires Ring(s) && Holds(s, q) && q != [] && Ring(t)
    requires t.queue == s.queue && t.head == s.head && t.tail == (s.tail + 1) % SIZE && t.reader == Waiting
    ensures Holds(t, q[1..])
  {
    forall i | 0 <= i < |q| - 1
      ensures Slot(t, i) == q[1..][i]
    {
      assert Slot(s, i + 1) == q[i + 1];
    }
  }

  lemma ReadKeeps(s: State, q: seq<Byte>)
    requires Ring(s) && Holds(s, q)
    ensures var t := ReadStep(s);
            if s.reader.Loaded? then
              q != [] && Holds(t, q[1..]) && t.delivered == s.delivered + [q[0]]
            else
              Holds(t, q) && t.delivered == s.delivered
  {
    if s.reader.Loaded? {
      TailDrops(s, q, ReadStep(s));
    } else {
      assert q != [] ==> q[0] == Slot(s, 0);
      SameRing(s, q, ReadStep(s));
    }
  }

  lemma SameRing(s: State, q: seq<Byte>, t: State)
    requires Ring(s) && Holds(s, q) && Ring(t) && t.queue == s.queue && t.head == s.head && t.tail == s.tail
    requires t.reader.Checked? ==> q != []
    requires t.reader.Loaded? ==> q != [] && q[0] == t.reader.c
    ensures Holds(t, q)
  {
    forall i | 0 <= i < |q|
      ensures Slot(t, i) == q[i]
    {
      assert Slot(s, i) == q[i];
    }
  }

  /** The run delivered a prefix of what was pending and typed, and the ring holds the rest. */
  ghost predicate InOrder(s: State, q: seq<Byte>, events: seq<Event>)
    requires Ring(s)
  {
    var r, t := Run(s, events), q + Typed(events);
    |r.delivered| <= |t| && r.delivered == t[..|r.delivered|] && Holds(r, t[|r.delivered|..])
  }

  /** The order is kept exactly as long as no more than 255 characters are pending. */
  lemma StepInOrder(s: State, q: seq<Byte>, events: seq<Event>, e: Event)
    requires Ring(s) && InOrder(s, q, events)
    ensures InOrder(s, q, events + [e]) <==> Pending(s, q, events + [e]) <= 255
  {
    var all, r, t := events + [e], Run(s, events), q + Typed(events);
    assert all[..|all| - 1] == events;
    var k := |r.delivered|;
    match e
    case Key(c) =>
      if c != 0 {
        var b := if c == RETURN then NEWLINE else c;
        PushFits(r, t[k..], c);
        assert q + Typed(all) == t + [b];
        assert (t + [b])[k..] == t[k..] + [b] && (t + [b])[..k] == t[..k];
      }
    case Take =>
      ReadKeeps(r, t[k..]);
      if r.reader.Loaded? {
        assert t[..k + 1] == t[..k] + [t[k]] && t[k..][1..] == t[k + 1..];
      }
  }

  /** One key more and the reader waits at a ring that looks empty, with 256 characters pending. */
  lemma OneKeyTooMany(s: State, q: seq<Byte>, events: seq<Event>, c: Byte)
    requires Ring(s) && InOrder(s, q, events) && Pending(s, q, events) == 255 && c != 0
    requires Run(s, events).reader == Waiting
    ensures var r := Run(s, events + [Key(c)]);
            Pending(s, q, events + [Key(c)]) == 256 && ReadStep(r) == r && !InOrder(s, q, events + [Key(c)])
  {
    var all, r, t := events + [Key(c)], Run(s, events), q + Typed(events);
    assert all[..|all| - 1] == events;
    PushFits(r, t[|r.delivered|..], c);
    StepInOrder(s, q, events, Key(c));
  }

  /** In every run with at most 255 characters pending at any time, however the interrupts fall, the reader
      gets exactly what was pending and typed, in order, and the ring holds exactly what it has not got yet. */
  lemma {:induction false} DeliversWhatWasTyped(s: State, q: seq<Byte>, events: seq<Event>)
    requires Ring(s) && Holds(s, q) && s.delivered == [] && NeverFull(s, q, events)
    ensures InOrder(s, q, events)
    decreases |events|
  {
    if events == [] {
      assert q + Typed([]) == q;
    } else {
      var init := events[..|events| - 1];
      forall n | 0 <= n <= |init|
        ensures Pending(s, q, init[..n]) <= 255
      {
        assert init[..n] == events[..n];
      }
      DeliversWhatWasTyped(s, q, init);
      assert events[..|events|] == events && init + [events[|events| - 1]] == events;
      StepInOrder(s, q, init, events[|events| - 1]);
    }
  }

  lemma EmptyMeansNothing(s: State, q: seq<Byte>)
    requires Ring(s) && Holds(s, q)
    ensures s.head == s.tail <==> q == []
  {
  }

  /** n steps of the reader. */
  function Takes(s: State, n: nat): (r: State)
    requires Ring(s)
    ensures Ring(r)
    decreases n
  {
    if n == 0 then s else Takes(ReadStep(s), n - 1)
  }

  lemma ThreeTakes(s: State, n: nat)
    requires Ring(s)
    ensures Takes(s, n + 3) == Takes(ReadStep(ReadStep(ReadStep(s))), n)
  {
    assert Takes(s, n + 3) == Takes(ReadStep(s), n + 2);
    assert Takes(ReadStep(s), n + 2) == Takes(ReadStep(ReadStep(s)), n + 1);
  }

  lemma OneDelivered(s: State, q: seq<Byte>)
    requires Ring(s) && Holds(s, q) && s.reader == Waiting && q != []
    ensures var t := ReadStep(ReadStep(ReadStep(s)));
            t.reader == Waiting && Holds(t, q[1..]) && t.delivered == s.delivered + [q[0]]
  {
    ReadKeeps(s, q);
    ReadKeeps(ReadStep(s), q);
    ReadKeeps(ReadStep(ReadStep(s)), q);
  }

  /** The reader waits at an empty ring and has delivered everything. */
  predicate Drained(s: State, delivered: seq<Byte>) {
    s.reader == Waiting && s.head == s.tail && s.delivered == delivered
  }

  /** Undisturbed, the reader empties the ring in three steps a character. */
  lemma {:induction false} Drains(s: State, q: seq<Byte>)
    requires Ring(s) && Holds(s, q) && s.reader == Waiting
    ensures Drained(Takes(s, 3 * |q|), s.delivered + q)
    decreases |q|
  {
    if q == [] {
      assert s.delivered + q == s.delivered;
    } else {
      var t := ReadStep(ReadStep(ReadStep(s)));
      OneDelivered(s, q);
      ThreeTakes(s, 3 * |q[1..]|);
      Drains(t, q[1..]);
      assert t.delivered + q[1..] == s.delivered + q;
      assert 3 * |q[1..]| + 3 == 3 * |q|;
    }
  }
}

/** The terminal driver. */
module TtyDriver {
  import opened Words
  import opened TtySpec

  class Tty {
    const queue: array<Byte>
    var head: nat
    var tail: nat

    ghost predicate Valid()
      reads this
    {
      queue.Length == SIZE && head < SIZE && tail < SIZE
    }

    /** The ring as the state machine sees it, for a reader at that point. */
    ghost function View(reader: Reader, delivered: seq<Byte>): State
      reads this, queue
    {
      State(queue[..], head, tail, reader, delivered)
    }

    /** init_tty. */
    constructor ()
      ensures Valid() && fresh(queue) && View(Waiting, []) == Start()
    {
      queue := new Byte[256](_ => 0);
      head, tail := 0, 0;
    }

    /** queue_empty, as the waiting loop of tty_read calls it. */
    method QueueEmpty(ghost delivered: seq<Byte>) returns (empty: bool)
      requires Valid()
      ensures View(if empty then Waiting else Checked, delivered) == Step(View(Waiting, delivered), Take)
    {
      empty := head == tail;
    }

    /** tty_putc, as the key interrupt calls it while the reader is at any point. */
    method Putc(c: Byte, ghost reader: Reader, ghost delivered: seq<Byte>)
      requires Valid()
      modifies this, queue
      ensures Valid() && View(reader, delivered) == Step(old(View(reader, delivered)), Key(c))
    {
      if c == 0 {
        return;
      }
      queue[head] := if c == RETURN then NEWLINE else c;
      head := (head + 1) % SIZE;
    }

    /** The load half of tty_queue_pop_char. */
    method LoadSlot(ghost delivered: seq<Byte>) returns (c: Byte)
      requires Valid()
      ensures View(Loaded(c), delivered) == Step(View(Checked, delivered), Take)
    {
      c := queue[tail];
    }

    /** The tail half of tty_queue_pop_char. */
    method AdvanceTail(ghost c: Byte, ghost delivered: seq<Byte>)
      requires Valid()
      modifies this`tail
      ensures Valid()
      ensures View(Waiting, delivered + [c]) == Step(old(View(Loaded(c), delivered)), Take)
    {
      tail := (tail + 1) % SIZE;
    }

    /** tty_read while interrupts come in: the events say in which order keys and the steps of the loop happen, from
        the first step on. It ends with count characters read, or still at work when the events are over. */
    method Read(buffer: array<Byte>, count: nat, events: seq<Event>) returns (read: nat, used: nat, ghost at: Reader)
      requires Valid() && count <= buffer.Length && buffer != queue
      modifies this, queue, buffer
      ensures Valid() && read <= count && used <= |events|
      ensures View(at, buffer[..read]) == Run(old(View(Waiting, [])), events[..used])
      ensures if read == count then at == Waiting else used == |events|
    {
      ghost var start := View(Waiting, []);
      read, used, at := 0, 0, Waiting;
      var phase, c: Byte := 0, 0;
      while read < count && used < |events|
        invariant Valid() && read <= count && used <= |events|
        invariant View(at, buffer[..read]) == Run(start, events[..used])
        invariant phase == (match at case Waiting => 0 case Checked => 1 case Loaded(_) => 2)
        invariant (at.Loaded? ==> at.c == c) && (read == count ==> at == Waiting)
        decreases |events| - used
      {
        assert events[..used + 1][..used] == events[..used];
        match events[used] {
          case Key(k) =>
            Putc(k, at, buffer[..read]);
          case Take =>
            if phase == 0 {
              var empty := QueueEmpty(buffer[..read]);
              at, phase := if empty then Waiting else Checked, if empty then 0 else 1;
            } else if phase == 1 {
              c := LoadSlot(buffer[..read]);
              at, phase := Loaded(c), 2;
            } else {
              ghost var got := buffer[..read];
              AdvanceTail(c, got);
              buffer[read] := c;
              assert buffer[..read + 1] == got + [c];
              read, at, phase := read + 1, Waiting, 0;
            }
        }
        used := used + 1;
      }
    }
  }
}
