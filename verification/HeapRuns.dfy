/** The structs of all address spaces on the one kernel heap, over whole runs: every struct sits at a live pointer
    of its own, so the frees of release_mm always take exactly the released address space out of the heap. */
module HeapRuns {
  import opened Words
  import H = HeapSpec
  import opened Vm
  import opened MmapSpec
  import opened Mmap
  import opened MmHeap

  /** Who holds a live pointer: an address space, an opened file that is not mapped yet, or anybody else. */
  datatype Owner = Of(m: nat, block: Block) | Opened(block: Block) | Other

  /** The area structs by address, and their contents. */
  datatype Space = Space(list: seq<nat>, vs: seq<Area>)

  datatype State = State(heap: seq<H.Block>, owner: map<nat, Owner>, spaces: map<nat, Space>)

  ghost predicate At(s: State, o: Owner, p: nat) {
    p in s.owner && s.owner[p] == o
  }

  ghost predicate Held(s: State, o: Owner) {
    exists p :: At(s, o, p)
  }

  ghost predicate HasBlock(s: State, m: nat, b: Block) {
    m in s.spaces && Owns(s.spaces[m].list, s.spaces[m].vs, b)
  }

  /** Exactly the live pointers have an owner. */
  ghost predicate LiveOk(s: State, p: nat) {
    H.Live(s.heap, p) <==> p in s.owner
  }

  /** Nothing lies at two pointers. */
  ghost predicate OnceOk(s: State, p: nat, q: nat) {
    p in s.owner && q in s.owner && s.owner[p] == s.owner[q] && s.owner[p] != Other ==> p == q
  }

  /** Exactly the blocks of an address space are held for it. */
  ghost predicate BlockOk(s: State, m: nat, b: Block) {
    HasBlock(s, m, b) <==> Held(s, Of(m, b))
  }

  /** An area struct lies where the list says. */
  ghost predicate VmaOk(s: State, m: nat, a: nat, p: nat) {
    At(s, Of(m, VmaAt(a)), p) ==> p == a
  }

  ghost predicate Inv(s: State) {
    && H.Canonical(s.heap) && (forall p :: LiveOk(s, p)) && (forall p, q :: OnceOk(s, p, q))
    && (forall m, b :: BlockOk(s, m, b)) && (forall m, a, p :: VmaOk(s, m, a, p))
    && (forall m :: m in s.spaces ==> |s.spaces[m].list| == |s.spaces[m].vs|)
  }

  const Booted: State := State(H.Initial, map[], map[])

  lemma BootedInv()
    ensures Inv(Booted)
  {
    assert H.Canonical(H.Initial);
    assert forall p :: LiveOk(Booted, p);
  }

  // ----- one allocation, one free

  /** kmalloc on behalf of o. */
  function Take(s: State, size: nat, o: Owner): (State, Ptr) {
    var (heap, p) := H.Malloc(s.heap, size);
    if p.Some? then (s.(heap := heap, owner := s.owner[p.value := o]), p) else (s, p)
  }

  lemma TakeLive(s: State, size: nat, o: Owner)
    requires H.Canonical(s.heap) && (forall p :: LiveOk(s, p)) && size < WORD
    ensures var (r, p) := Take(s, size, o);
            && H.Canonical(r.heap) && (forall q :: LiveOk(r, q)) && r.spaces == s.spaces
            && (p.Some? ==> p.value !in s.owner && r.owner == s.owner[p.value := o]
                             && H.Live(r.heap, p.value) && H.Free(r.heap, p.value) == s.heap)
            && (p.None? ==> r == s)
  {
    H.MallocKeeps(s.heap, size);
    H.FreeUndoesMalloc(s.heap, size);
    var (heap, p) := H.Malloc(s.heap, size);
    if p.Some? {
      var b :| H.NewBlock(s.heap, heap, b, p.value, H.AlignUp(size));
      assert b in H.Allocated(heap);
      NewLive(s.heap, heap, b, p.value);
      assert LiveOk(s, p.value);
      var r := s.(heap := heap, owner := s.owner[p.value := o]);
      forall q ensures LiveOk(r, q) {
        assert LiveOk(s, q);
      }
    }
  }

  /** The allocation makes exactly one pointer live. */
  lemma NewLive(bs: seq<H.Block>, bs': seq<H.Block>, b: H.Block, p: nat)
    requires H.Canonical(bs) && H.Canonical(bs') && !b.free && b.Payload() == p
    requires b !in H.Allocated(bs) && H.Allocated(bs') == H.Allocated(bs) + {b}
    ensures !H.Live(bs, p) && forall q :: H.Live(bs', q) <==> H.Live(bs, q) || q == p
  {
    assert b in H.Allocated(bs');
    if H.Live(bs, p) {
      var c :| c in bs && !c.free && c.Payload() == p;
      assert c in H.Allocated(bs) && c in H.Allocated(bs');
      H.OneBlockPerPointer(bs', b, c);
    }
    forall q ensures H.Live(bs', q) <==> H.Live(bs, q) || q == p {
      if H.Live(bs', q) {
        var c :| c in bs' && !c.free && c.Payload() == q;
        assert c in H.Allocated(bs');
      }
      if H.Live(bs, q) {
        var c :| c in bs && !c.free && c.Payload() == q;
        assert c in H.Allocated(bs) && c in H.Allocated(bs');
      }
    }
  }

  // ----- steps

  datatype Op =
    | Alloc(size: nat, o: Owner)              // kmalloc for an opened file or for anybody else
    | Drop(p: nat)                            // their kfree
    | NewMm(m: nat, size: nat)                // the mm struct of a new address space
    | Map(m: nat, size: nat, q: Request)      // do_mmap
    | Release(m: nat, log: seq<Block>)        // release_mm, with the frees in the order of ReleaseHeap

  /** Where the blocks of m lie. */
  ghost function Places(s: State, m: nat): map<Block, nat>
    requires forall p, q :: OnceOk(s, p, q)
  {
    assert forall p, q :: p in s.owner && q in s.owner && s.owner[p] == s.owner[q] && s.owner[p].Of? ==>
      OnceOk(s, p, q);
    map p | p in s.owner && s.owner[p].Of? && s.owner[p].m == m :: s.owner[p].block := p
  }

  ghost predicate FileHeld(s: State, id: nat) {
    Held(s, Opened(FileOf(id))) && Held(s, Opened(InodeOf(id)))
  }

  /** What the callers respect: what they take is new, they free only what is theirs, a new address space is new,
      a mapped file is open, and a release frees as ReleaseHeap does. */
  ghost predicate Legal(s: State, op: Op) {
    match op
    case Alloc(size, o) => size < WORD && (o == Other || (o.Opened? && !Held(s, o)))
    case Drop(p) => p in s.owner && !s.owner[p].Of?
    case NewMm(m, size) => size < WORD && m !in s.spaces
    case Map(m, size, q) =>
      size < WORD && m in s.spaces
      && (q.file.Some? ==> HasFile(s.spaces[m].vs, q.file.value.id) || FileHeld(s, q.file.value.id))
    case Release(m, log) =>
      m in s.spaces && Distinct(log) && forall b :: b in log <==> Owns(s.spaces[m].list, s.spaces[m].vs, b)
  }

  /** An opened file becomes part of the address space that maps it. */
  function Adopt(owner: map<nat, Owner>, m: nat, id: nat): map<nat, Owner> {
    map p | p in owner :: if owner[p] == Opened(FileOf(id)) then Of(m, FileOf(id))
                          else if owner[p] == Opened(InodeOf(id)) then Of(m, InodeOf(id)) else owner[p]
  }

  function Adopted(s: State, m: nat, file: Option<File>): map<nat, Owner>
    requires m in s.spaces
  {
    if file.Some? && !HasFile(s.spaces[m].vs, file.value.id) then Adopt(s.owner, m, file.value.id) else s.owner
  }

  /** The space with the struct at p for the area at its position. */
  function Entered(v: Space, p: nat, q: Request, n: seq<Area>): Space
    requires |v.list| == |v.vs|
  {
    var i := Position(v.vs, AlignDown(q.addr));
    Space(v.list[..i] + [p] + v.list[i..], n)
  }

  ghost function Step(s: State, op: Op): State
    requires Inv(s) && Legal(s, op)
  {
    match op
    case Alloc(size, o) => Take(s, size, o).0
    case Drop(p) =>
      assert LiveOk(s, p);
      s.(heap := H.Free(s.heap, p), owner := s.owner - {p})
    case NewMm(m, size) =>
      var (r, p) := Take(s, size, Of(m, MmStruct));
      if p.Some? then r.(spaces := r.spaces[m := Space([], [])]) else s
    case Map(m, size, q) =>
      var (heap, p) := H.Malloc(s.heap, size);
      if p.None? then s
      else
        (match MmapSpec.Mmap(s.spaces[m].vs, q.addr, q.length, q.file, q.offset)
         case None =>
           TakeLive(s, size, Other);
           s.(heap := H.Free(heap, p.value))
         case Some(n) =>
           State(heap, Adopted(s, m, q.file)[p.value := Of(m, VmaAt(p.value))],
                 s.spaces[m := Entered(s.spaces[m], p.value, q, n)]))
    case Release(m, log) =>
      PlacesPlaced(s, m);
      HeapLosesWhatMmOwned(s.heap, log, s.spaces[m].list, s.spaces[m].vs, Places(s, m));
      State(H.FreeAll(s.heap, Pointers(log, Places(s, m))), s.owner - Places(s, m).Values, s.spaces - {m})
  }

  /** A refused do_mmap leaves the heap and everybody's blocks as they were; an accepted one takes one block and enters
      the area. */
  lemma MapEffect(s: State, m: nat, size: nat, q: Request)
    requires Inv(s) && Legal(s, Map(m, size, q))
    ensures var r := Step(s, Map(m, size, q));
            match MmapSpec.Mmap(s.spaces[m].vs, q.addr, q.length, q.file, q.offset)
            case None => r == s
            case Some(n) =>
              if H.Malloc(s.heap, size).1 == None then r == s
              else
                && r.spaces.Keys == s.spaces.Keys && r.spaces[m].vs == n
                && (forall u :: u in s.spaces && u != m ==> r.spaces[u] == s.spaces[u])
                && exists b :: H.NewBlock(s.heap, r.heap, b, H.Malloc(s.heap, size).1.value, H.AlignUp(size))
  {
    H.MallocKeeps(s.heap, size);
    H.FreeUndoesMalloc(s.heap, size);
  }

  /** In every state that satisfies the invariant the blocks of an address space are placed. */
  lemma PlacesPlaced(s: State, m: nat)
    requires Inv(s) && m in s.spaces
    ensures Placed(s.heap, s.spaces[m].list, s.spaces[m].vs, Places(s, m))
  {
    var at := Places(s, m);
    forall b ensures b in at <==> Owns(s.spaces[m].list, s.spaces[m].vs, b) {
      assert BlockOk(s, m, b);
      if Held(s, Of(m, b)) {
        var p :| At(s, Of(m, b), p);
        assert b in at;
      }
      if b in at {
        assert At(s, Of(m, b), at[b]);
      }
    }
    forall b | b in at ensures H.Live(s.heap, at[b]) { assert LiveOk(s, at[b]); }
  }

  // ----- every step keeps the invariant

  /** r holds o at p besides what s holds. */
  lemma HeldMore(s: State, r: State, p: nat, o: Owner)
    requires p !in s.owner && r.owner == s.owner[p := o]
    ensures Held(r, o) && forall x :: x != o ==> (Held(r, x) <==> Held(s, x))
  {
    assert At(r, o, p);
    forall x | x != o ensures Held(r, x) <==> Held(s, x) {
      if Held(r, x) {
        var q :| At(r, x, q);
        assert At(s, x, q);
      }
      if Held(s, x) {
        var q :| At(s, x, q);
        assert At(r, x, q);
      }
    }
  }

  lemma OnceMore(s: State, r: State, p: nat, o: Owner)
    requires p !in s.owner && r.owner == s.owner[p := o] && (o == Other || !Held(s, o))
    requires forall a, b :: OnceOk(s, a, b)
    ensures forall a, b :: OnceOk(r, a, b)
  {
    forall a, b ensures OnceOk(r, a, b) {
      assert OnceOk(s, a, b);
      assert a in s.owner && s.owner[a] == o ==> At(s, o, a);
      assert b in s.owner && s.owner[b] == o ==> At(s, o, b);
    }
  }

  lemma AllocKeeps(s: State, size: nat, o: Owner)
    requires Inv(s) && Legal(s, Alloc(size, o))
    ensures Inv(Take(s, size, o).0)
  {
    TakeLive(s, size, o);
    var (r, p) := Take(s, size, o);
    if p.Some? {
      HeldMore(s, r, p.value, o);
      OnceMore(s, r, p.value, o);
      forall m, b ensures BlockOk(r, m, b) { assert BlockOk(s, m, b); }
      forall m, a, q ensures VmaOk(r, m, a, q) { assert VmaOk(s, m, a, q); }
    }
  }

  lemma NewMmBlocks(s: State, r: State, m: nat, p: nat, u: nat, b: Block)
    requires m !in s.spaces && r.spaces == s.spaces[m := Space([], [])] && BlockOk(s, u, b)
    requires p !in s.owner && r.owner == s.owner[p := Of(m, MmStruct)]
    ensures BlockOk(r, u, b)
  {
    HeldMore(s, r, p, Of(m, MmStruct));
    if u == m {
      assert HasBlock(r, m, b) <==> b == MmStruct;
    }
  }

  lemma NewMmState(s: State, q: State, m: nat, p: nat)
    requires Inv(s) && m !in s.spaces && H.Canonical(q.heap) && (forall a :: LiveOk(q, a)) && q.spaces == s.spaces
    requires p !in s.owner && q.owner == s.owner[p := Of(m, MmStruct)]
    ensures Inv(q.(spaces := q.spaces[m := Space([], [])]))
  {
    var r := q.(spaces := q.spaces[m := Space([], [])]);
    assert BlockOk(s, m, MmStruct);
    OnceMore(s, r, p, Of(m, MmStruct));
    forall a ensures LiveOk(r, a) { assert LiveOk(q, a); }
    forall u, b ensures BlockOk(r, u, b) {
      assert BlockOk(s, u, b);
      NewMmBlocks(s, r, m, p, u, b);
    }
    forall u, a, b ensures VmaOk(r, u, a, b) { assert VmaOk(s, u, a, b); }
  }

  lemma NewMmKeeps(s: State, m: nat, size: nat)
    requires Inv(s) && Legal(s, NewMm(m, size))
    ensures Inv(Step(s, NewMm(m, size)))
  {
    TakeLive(s, size, Of(m, MmStruct));
    var (q, p) := Take(s, size, Of(m, MmStruct));
    if p.Some? {
      NewMmState(s, q, m, p.value);
    }
  }

  lemma DropKeeps(s: State, p: nat)
    requires Inv(s) && Legal(s, Drop(p))
    ensures Inv(Step(s, Drop(p)))
  {
    assert LiveOk(s, p);
    var r := s.(heap := H.Free(s.heap, p), owner := s.owner - {p});
    H.FreeKeeps(s.heap, p);
    LiveLess(s.heap, r.heap, {p});
    forall q ensures LiveOk(r, q) { assert LiveOk(s, q); }
    forall a, b ensures OnceOk(r, a, b) { assert OnceOk(s, a, b); }
    forall m, b ensures BlockOk(r, m, b) {
      assert BlockOk(s, m, b);
      HeldElsewhere(s, r, Of(m, b), {p});
    }
    forall m, a, q ensures VmaOk(r, m, a, q) { assert VmaOk(s, m, a, q); }
  }

  /** Removing blocks makes exactly their pointers dead. */
  lemma LiveLess(bs: seq<H.Block>, bs': seq<H.Block>, ps: set<nat>)
    requires H.Allocated(bs') == set b | b in H.Allocated(bs) && b.Payload() !in ps
    ensures forall q :: H.Live(bs', q) <==> H.Live(bs, q) && q !in ps
  {
    forall q ensures H.Live(bs', q) <==> H.Live(bs, q) && q !in ps {
      if H.Live(bs', q) {
        var c :| c in bs' && !c.free && c.Payload() == q;
        assert c in H.Allocated(bs');
      }
      if H.Live(bs, q) && q !in ps {
        var c :| c in bs && !c.free && c.Payload() == q;
        assert c in H.Allocated(bs) && c in H.Allocated(bs');
      }
    }
  }

  /** What does not lie at a removed pointer is still held. */
  lemma HeldElsewhere(s: State, r: State, o: Owner, ps: set<nat>)
    requires r.owner == s.owner - ps && forall p :: At(s, o, p) ==> p !in ps
    ensures Held(r, o) <==> Held(s, o)
  {
    if Held(s, o) {
      var p :| At(s, o, p);
      assert At(r, o, p);
    }
    if Held(r, o) {
      var p :| At(r, o, p);
      assert At(s, o, p);
    }
  }

  lemma ReleaseKeeps(s: State, m: nat, log: seq<Block>)
    requires Inv(s) && Legal(s, Release(m, log))
    ensures Inv(Step(s, Release(m, log)))
  {
    PlacesPlaced(s, m);
    var at := Places(s, m);
    HeapLosesWhatMmOwned(s.heap, log, s.spaces[m].list, s.spaces[m].vs, at);
    var r := Step(s, Release(m, log));
    LiveLess(s.heap, r.heap, at.Values);
    forall q ensures LiveOk(r, q) { assert LiveOk(s, q); }
    forall a, b ensures OnceOk(r, a, b) { assert OnceOk(s, a, b); }
    forall u, b ensures BlockOk(r, u, b) {
      assert BlockOk(s, u, b);
      GoneOrKept(s, r, m, u, b);
    }
    forall u, a, q ensures VmaOk(r, u, a, q) { assert VmaOk(s, u, a, q); }
  }

  lemma GoneOrKept(s: State, r: State, m: nat, u: nat, b: Block)
    requires (forall p, q :: OnceOk(s, p, q)) && r.owner == s.owner - Places(s, m).Values
    ensures Held(r, Of(u, b)) <==> u != m && Held(s, Of(u, b))
  {
    var at := Places(s, m);
    if u == m {
      forall p ensures !At(r, Of(m, b), p) {
        if p in s.owner && s.owner[p] == Of(m, b) {
          assert b in at && at[b] in at.Values;
          assert OnceOk(s, p, at[b]);
        }
      }
    } else {
      forall p | p in at.Values ensures p in s.owner && s.owner[p].Of? && s.owner[p].m == m {
        var c :| c in at && at[c] == p;
      }
      HeldElsewhere(s, r, Of(u, b), at.Values);
    }
  }

  // ----- do_mmap

  predicate MapsFile(q: Request, id: nat) {
    q.file.Some? && q.file.value.id == id
  }

  lemma MappedFiles(vs: seq<Area>, q: Request, n: seq<Area>, id: nat)
    requires MmapSpec.Mmap(vs, q.addr, q.length, q.file, q.offset) == Some(n)
    ensures HasFile(n, id) <==> HasFile(vs, id) || MapsFile(q, id)
  {
    var a := NewArea(q.addr, q.length, q.file, q.offset);
    var i := Position(vs, a.start);
    assert n == vs[..i] + [a] + vs[i..];
    if HasFile(vs, id) {
      var k :| 0 <= k < |vs| && vs[k].file.Some? && vs[k].file.value.id == id;
      assert n[if k < i then k else k + 1] == vs[k];
    }
    if MapsFile(q, id) {
      assert n[i] == a;
    }
    if HasFile(n, id) {
      var k :| 0 <= k < |n| && n[k].file.Some? && n[k].file.value.id == id;
      assert n[k] == if k < i then vs[k] else if k == i then a else vs[k - 1];
    }
  }

  /** The blocks that a mapping adds. */
  predicate Gains(s: State, m: nat, q: Request, p: nat, b: Block)
    requires m in s.spaces
  {
    || b == VmaAt(p)
    || (q.file.Some? && !HasFile(s.spaces[m].vs, q.file.value.id)
        && (b == FileOf(q.file.value.id) || b == InodeOf(q.file.value.id)))
  }

  ghost predicate Mapped(s: State, r: State, m: nat, q: Request, p: nat, n: seq<Area>) {
    && Inv(s) && m in s.spaces && p !in s.owner
    && (q.file.Some? ==> HasFile(s.spaces[m].vs, q.file.value.id) || FileHeld(s, q.file.value.id))
    && MmapSpec.Mmap(s.spaces[m].vs, q.addr, q.length, q.file, q.offset) == Some(n)
    && r.owner == Adopted(s, m, q.file)[p := Of(m, VmaAt(p))]
    && r.spaces == s.spaces[m := Entered(s.spaces[m], p, q, n)]
  }

  lemma MappedBlocks(s: State, r: State, m: nat, q: Request, p: nat, n: seq<Area>, u: nat, b: Block)
    requires Mapped(s, r, m, q, p, n)
    ensures HasBlock(r, u, b) <==> HasBlock(s, u, b) || (u == m && Gains(s, m, q, p, b))
  {
    if u == m {
      match b
      case InodeOf(id) => MappedFiles(s.spaces[m].vs, q, n, id);
      case FileOf(id) => MappedFiles(s.spaces[m].vs, q, n, id);
      case VmaAt(a) =>
        var list, i := s.spaces[m].list, Position(s.spaces[m].vs, AlignDown(q.addr));
        assert list == list[..i] + list[i..];
      case MmStruct =>
    }
  }

  lemma MappedHeld(s: State, r: State, m: nat, q: Request, p: nat, n: seq<Area>, u: nat, b: Block)
    requires Mapped(s, r, m, q, p, n)
    ensures Held(r, Of(u, b)) <==> Held(s, Of(u, b)) || (u == m && Gains(s, m, q, p, b))
  {
    var o := Of(u, b);
    if Held(s, o) {
      var x :| At(s, o, x);
      assert At(r, o, x);
    }
    if u == m && Gains(s, m, q, p, b) {
      if b == VmaAt(p) {
        assert At(r, o, p);
      } else {
        var x :| At(s, Opened(b), x);
        assert At(r, o, x);
      }
    }
    if Held(r, o) {
      var x :| At(r, o, x);
      if x != p && s.owner[x] == o {
        assert At(s, o, x);
      }
    }
  }

  lemma MappedOnce(s: State, r: State, m: nat, q: Request, p: nat, n: seq<Area>, a: nat, b: nat)
    requires Mapped(s, r, m, q, p, n)
    ensures OnceOk(r, a, b)
  {
    assert OnceOk(s, a, b);
    if q.file.Some? {
      assert BlockOk(s, m, FileOf(q.file.value.id)) && BlockOk(s, m, InodeOf(q.file.value.id));
    }
    forall x | x in s.owner ensures Held(s, s.owner[x]) { assert At(s, s.owner[x], x); }
    assert VmaOk(s, m, p, a) && VmaOk(s, m, p, b);
  }

  lemma MapKeeps(s: State, m: nat, size: nat, q: Request)
    requires Inv(s) && Legal(s, Map(m, size, q))
    ensures Inv(Step(s, Map(m, size, q)))
  {
    var (heap, p) := H.Malloc(s.heap, size);
    var n := MmapSpec.Mmap(s.spaces[m].vs, q.addr, q.length, q.file, q.offset);
    if p.Some? && n == None {
      TakeLive(s, size, Other);
    }
    if p.Some? && n.Some? {
      TakeLive(s, size, Of(m, VmaAt(p.value)));
      var r, t := Step(s, Map(m, size, q)), Take(s, size, Of(m, VmaAt(p.value))).0;
      forall a ensures LiveOk(r, a) { assert LiveOk(t, a); }
      forall a, b ensures OnceOk(r, a, b) { MappedOnce(s, r, m, q, p.value, n.value, a, b); }
      forall u, b ensures BlockOk(r, u, b) {
        assert BlockOk(s, u, b);
        MappedBlocks(s, r, m, q, p.value, n.value, u, b);
        MappedHeld(s, r, m, q, p.value, n.value, u, b);
      }
      forall u, a, x ensures VmaOk(r, u, a, x) { assert VmaOk(s, u, a, x); }
    }
  }

  lemma StepKeepsInv(s: State, op: Op)
    requires Inv(s) && Legal(s, op)
    ensures Inv(Step(s, op))
  {
    match op
    case Alloc(size, o) => AllocKeeps(s, size, o);
    case Drop(p) => DropKeeps(s, p);
    case NewMm(m, size) => NewMmKeeps(s, m, size);
    case Map(m, size, q) => MapKeeps(s, m, size, q);
    case Release(m, log) => ReleaseKeeps(s, m, log);
  }

  // ----- runs

  ghost predicate LegalRun(s: State, ops: seq<Op>)
    requires Inv(s)
    decreases |ops|
  {
    ops == [] || (Legal(s, ops[0]) && (StepKeepsInv(s, ops[0]); LegalRun(Step(s, ops[0]), ops[1..])))
  }

  ghost function Run(s: State, ops: seq<Op>): (r: State)
    requires Inv(s) && LegalRun(s, ops)
    ensures Inv(r)
    decreases |ops|
  {
    if ops == [] then s else
      StepKeepsInv(s, ops[0]);
      Run(Step(s, ops[0]), ops[1..])
  }

  /** After every run from boot: the structs of every address space lie at live pointers of their own, and no two
      address spaces share one. */
  lemma StructsPlaced(ops: seq<Op>)
    requires Inv(Booted) && LegalRun(Booted, ops)
    ensures var s := Run(Booted, ops);
            && (forall m :: m in s.spaces ==> Placed(s.heap, s.spaces[m].list, s.spaces[m].vs, Places(s, m)))
            && (forall m, u :: m in s.spaces && u in s.spaces && m != u ==> Places(s, m).Values !! Places(s, u).Values)
  {
    var s := Run(Booted, ops);
    forall m | m in s.spaces ensures Placed(s.heap, s.spaces[m].list, s.spaces[m].vs, Places(s, m)) {
      PlacesPlaced(s, m);
    }
    forall m, u | m in s.spaces && u in s.spaces && m != u ensures Places(s, m).Values !! Places(s, u).Values {
      PlacesApart(s, m, u);
    }
  }

  lemma PlacesApart(s: State, m: nat, u: nat)
    requires (forall p, q :: OnceOk(s, p, q)) && m != u
    ensures Places(s, m).Values !! Places(s, u).Values
  {
    forall p | p in Places(s, m).Values ensures s.owner[p].m == m {
      var c :| c in Places(s, m) && Places(s, m)[c] == p;
    }
    forall p | p in Places(s, u).Values ensures s.owner[p].m == u {
      var c :| c in Places(s, u) && Places(s, u)[c] == p;
    }
  }

  /** After every run from boot: releasing an address space leaves exactly the other blocks allocated. */
  lemma ReleaseTakesExactly(ops: seq<Op>, m: nat, log: seq<Block>)
    requires Inv(Booted) && LegalRun(Booted, ops) && Legal(Run(Booted, ops), Release(m, log))
    ensures var s := Run(Booted, ops);
            var r := Step(s, Release(m, log));
            && H.Allocated(r.heap) == set b | b in H.Allocated(s.heap) && b.Payload() !in Places(s, m).Values
            && forall o :: Held(r, o) <==> Held(s, o) && !(o.Of? && o.m == m)
  {
    var s := Run(Booted, ops);
    PlacesPlaced(s, m);
    HeapLosesWhatMmOwned(s.heap, log, s.spaces[m].list, s.spaces[m].vs, Places(s, m));
    var r := Step(s, Release(m, log));
    forall o ensures Held(r, o) <==> Held(s, o) && !(o.Of? && o.m == m) {
      if o.Of? {
        GoneOrKept(s, r, m, o.m, o.block);
      } else {
        NotOfKept(s, r, m, o);
      }
    }
  }

  lemma NotOfKept(s: State, r: State, m: nat, o: Owner)
    requires (forall p, q :: OnceOk(s, p, q)) && r.owner == s.owner - Places(s, m).Values && !o.Of?
    ensures Held(r, o) <==> Held(s, o)
  {
    var at := Places(s, m);
    forall p | p in at.Values ensures p in s.owner && s.owner[p].Of? {
      var c :| c in at && at[c] == p;
    }
    HeldElsewhere(s, r, o, at.Values);
  }
}
