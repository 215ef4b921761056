/** Ownership and conservation of physical memory, stated through page walks alone. */
module VmOwnership {
  import opened Words
  import opened Vm
  import opened VmProofs

  /** Page p of address space m is a user page mapped to frame f. */
  ghost predicate Maps(s: Machine, m: nat, p: nat, f: nat) {
    && m in s.mms && p < PAGES && PdeOf(s, Pool(s.mms[m].pgd), Pdi(p)).UserTable?
    && Walk(s, Pool(s.mms[m].pgd), p) == Some(f)
  }

  ghost predicate MapsSome(s: Machine, m: nat, f: nat) {
    exists p :: Maps(s, m, p, f)
  }

  ghost predicate UsesTable(s: Machine, m: nat, i: nat, t: nat) {
    m in s.mms && i < ENTRIES && PdeOf(s, Pool(s.mms[m].pgd), i) == UserTable(t)
  }

  ghost predicate UsesSome(s: Machine, m: nat, t: nat) {
    exists i: nat :: UsesTable(s, m, i, t)
  }

  function PageOf(i: nat, j: nat): nat { i * ENTRIES + j }

  lemma PageOfSplit(i: nat, j: nat)
    requires i < ENTRIES && j < ENTRIES
    ensures PageOf(i, j) < PAGES && Pdi(PageOf(i, j)) == i && Pti(PageOf(i, j)) == j
  {
  }

  lemma MapsOwned(s: Machine, m: nat, p: nat, f: nat)
    requires Inv(s) && Maps(s, m, p, f)
    ensures f in s.own.frame && FrameUsed(s, f) && KERNEL_FRAMES <= f < FRAMES
    ensures var d := s.mms[m].pgd; var t := PdeOf(s, Pool(d), Pdi(p)).table;
            s.own.frame[f] == Slot(t, Pti(p)) && t in s.own.table && s.own.table[t] == Slot(d, Pdi(p))
            && d in s.own.dir && s.own.dir[d] == m
  {
    var d := s.mms[m].pgd;
    assert MmOk(s, m) && EntryOk(s, d, Pdi(p));
    assert MappingOk(s, PdeOf(s, Pool(d), Pdi(p)).table, Pti(p));
    assert FrameOk(s, f);
  }

  lemma OwnedMaps(s: Machine, f: nat) returns (m: nat, p: nat)
    requires Inv(s) && FrameUsed(s, f) && f >= KERNEL_FRAMES
    ensures Maps(s, m, p, f)
  {
    assert FrameOk(s, f);
    var a := s.own.frame[f];
    assert TableOk(s, a.at);
    var b := s.own.table[a.at];
    assert DirOk(s, b.at);
    m := s.own.dir[b.at];
    p := PageOf(b.index, a.index);
    PageOfSplit(b.index, a.index);
  }

  /** Every user frame in use is mapped by exactly one page of exactly one address space, and every mapped
      user frame is in use and is not the kernel's. */
  lemma FramesHaveOneOwner(s: Machine)
    requires Inv(s)
    ensures forall f: nat :: KERNEL_FRAMES <= f < FRAMES ==> (FrameUsed(s, f) <==> exists m :: MapsSome(s, m, f))
    ensures forall m: nat, p: nat, f: nat :: Maps(s, m, p, f) ==> FrameUsed(s, f) && KERNEL_FRAMES <= f < FRAMES
    ensures forall m: nat, p: nat, u: nat, q: nat, f: nat :: Maps(s, m, p, f) && Maps(s, u, q, f) ==> m == u && p == q
  {
    forall f: nat | KERNEL_FRAMES <= f < FRAMES ensures FrameUsed(s, f) <==> exists m :: MapsSome(s, m, f) {
      if FrameUsed(s, f) {
        var m, p := OwnedMaps(s, f);
        assert MapsSome(s, m, f);
      }
      forall m | MapsSome(s, m, f) ensures FrameUsed(s, f) {
        var p :| Maps(s, m, p, f);
        MapsOwned(s, m, p, f);
      }
    }
    forall m: nat, p: nat, f: nat | Maps(s, m, p, f) ensures FrameUsed(s, f) && KERNEL_FRAMES <= f < FRAMES {
      MapsOwned(s, m, p, f);
    }
    forall m: nat, p: nat, u: nat, q: nat, f: nat | Maps(s, m, p, f) && Maps(s, u, q, f) ensures m == u && p == q {
      MapsOwned(s, m, p, f);
      MapsOwned(s, u, q, f);
      PageSplit(p, q);
    }
  }

  lemma TableOwner(s: Machine, m: nat, i: nat, t: nat)
    requires Inv(s) && UsesTable(s, m, i, t)
    ensures t in s.own.table && TableUsed(s, t) && s.own.table[t] == Slot(s.mms[m].pgd, i)
    ensures s.mms[m].pgd in s.own.dir && s.own.dir[s.mms[m].pgd] == m
  {
    assert MmOk(s, m) && EntryOk(s, s.mms[m].pgd, i) && TableOk(s, t);
  }

  lemma OwnedTable(s: Machine, t: nat) returns (m: nat, i: nat)
    requires Inv(s) && TableUsed(s, t)
    ensures UsesTable(s, m, i, t)
  {
    assert TableOk(s, t);
    var o := s.own.table[t];
    assert DirOk(s, o.at);
    m, i := s.own.dir[o.at], o.index;
  }

  /** Every table in use is named by exactly one user entry of exactly one address space. */
  lemma TablesHaveOneOwner(s: Machine)
    requires Inv(s)
    ensures forall t: nat :: TableUsed(s, t) <==> exists m: nat, i: nat :: UsesTable(s, m, i, t)
    ensures forall m: nat, i: nat, u: nat, k: nat, t: nat ::
              UsesTable(s, m, i, t) && UsesTable(s, u, k, t) ==> m == u && i == k
  {
    forall t: nat ensures TableUsed(s, t) <==> exists m: nat, i: nat :: UsesTable(s, m, i, t) {
      if TableUsed(s, t) {
        var m, i := OwnedTable(s, t);
      }
      forall m, i | UsesTable(s, m, i, t) ensures TableUsed(s, t) {
        TableOwner(s, m, i, t);
      }
    }
    forall m: nat, i: nat, u: nat, k: nat, t: nat | UsesTable(s, m, i, t) && UsesTable(s, u, k, t)
      ensures m == u && i == k
    {
      TableOwner(s, m, i, t);
      TableOwner(s, u, k, t);
    }
  }

  // ----- release

  /** release_mm returns exactly the frames and tables of m and its directory, never a kernel frame. */
  lemma ReleaseFreesExactly(s: Machine, m: nat)
    requires Inv(s) && m in s.mms && s.cr3 != Pool(s.mms[m].pgd)
    ensures s.mms[m].pgd < DIRS
    ensures var r := Release(s, m);
            && Inv(r)
            && (forall f: nat :: FrameUsed(r, f) <==> FrameUsed(s, f) && !MapsSome(s, m, f))
            && (forall f: nat :: f < KERNEL_FRAMES ==> FrameUsed(r, f))
            && (forall t: nat :: TableUsed(r, t) <==> TableUsed(s, t) && !UsesSome(s, m, t))
            && (forall d :: DirUsed(r, d) <==> DirUsed(s, d) && d != s.mms[m].pgd)
  {
    var d := s.mms[m].pgd;
    assert MmOk(s, m) && DirOk(s, d);
    ReleaseEffect(s, m);
    var r := Release(s, m);
    ReleaseKeeps(s, r, m, d);
    forall f: nat ensures FrameOf(s.own, f, d) <==> MapsSome(s, m, f) {
      assert FrameOk(s, f);
      if FrameOf(s.own, f, d) {
        var u, p := OwnedMaps(s, f);
        MapsOwned(s, u, p, f);
      }
      forall p | Maps(s, m, p, f) ensures FrameOf(s.own, f, d) { MapsOwned(s, m, p, f); }
    }
    forall t: nat ensures TableOf(s.own, t, d) <==> UsesSome(s, m, t) {
      assert TableOk(s, t);
      if TableOf(s.own, t, d) {
        var u, i := OwnedTable(s, t);
        TableOwner(s, u, i, t);
      }
      forall i | UsesTable(s, m, i, t) ensures TableOf(s.own, t, d) { TableOwner(s, m, i, t); }
    }
    forall f: nat | f < KERNEL_FRAMES ensures FrameUsed(r, f) { assert FrameOk(r, f); }
  }

  // ----- what is in use is determined by the address spaces

  /** Address space u has the same areas, entries, translations and bytes in both states. */
  ghost predicate Undisturbed(s: Machine, r: Machine, u: nat) {
    && u in s.mms && u in r.mms && r.mms[u] == s.mms[u]
    && (forall i: nat :: PdeOf(r, Pool(s.mms[u].pgd), i) == PdeOf(s, Pool(s.mms[u].pgd), i))
    && (forall p :: Walk(r, Pool(s.mms[u].pgd), p) == Walk(s, Pool(s.mms[u].pgd), p))
    && SameBytes(s, r, u)
  }

  lemma UndisturbedTrans(s: Machine, r: Machine, q: Machine, u: nat)
    requires Undisturbed(s, r, u) && Undisturbed(r, q, u)
    ensures Undisturbed(s, q, u)
  {
  }

  ghost predicate AllUndisturbed(s: Machine, r: Machine) {
    s.mms.Keys == r.mms.Keys && forall u :: u in s.mms ==> Undisturbed(s, r, u)
  }

  lemma UsedStays(s: Machine, r: Machine)
    requires Inv(s) && Inv(r) && AllUndisturbed(s, r)
    ensures forall f :: FrameUsed(s, f) ==> FrameUsed(r, f)
    ensures forall t :: TableUsed(s, t) ==> TableUsed(r, t)
    ensures forall d :: DirUsed(s, d) ==> DirUsed(r, d)
  {
    forall f: nat | FrameUsed(s, f) ensures FrameUsed(r, f) {
      assert FrameOk(r, f);
      if f >= KERNEL_FRAMES {
        var m, p := OwnedMaps(s, f);
        assert Undisturbed(s, r, m);
        MapsOwned(r, m, p, f);
      }
    }
    forall t: nat | TableUsed(s, t) ensures TableUsed(r, t) {
      var m, i := OwnedTable(s, t);
      assert Undisturbed(s, r, m);
      TableOwner(r, m, i, t);
    }
    forall d: nat | DirUsed(s, d) ensures DirUsed(r, d) {
      assert DirOk(s, d) && DirOk(r, d);
      var m := s.own.dir[d];
      assert Undisturbed(s, r, m) && MmOk(r, m);
    }
  }

  /** If the same address spaces exist, undisturbed, then exactly the same frames, tables and directories
      are in use. */
  lemma UseDetermined(s: Machine, r: Machine)
    requires Inv(s) && Inv(r) && AllUndisturbed(s, r)
    ensures r.frameUse == s.frameUse && r.tableUse == s.tableUse && r.dirUse == s.dirUse
  {
    UsedStays(s, r);
    forall u | u in r.mms ensures Undisturbed(r, s, u) { assert Undisturbed(s, r, u); }
    UsedStays(r, s);
    assert forall f :: 0 <= f < FRAMES ==> s.frameUse[f] == FrameUsed(s, f) && r.frameUse[f] == FrameUsed(r, f);
    assert forall t :: 0 <= t < TABLES ==> s.tableUse[t] == TableUsed(s, t) && r.tableUse[t] == TableUsed(r, t);
    assert forall d :: 0 <= d < DIRS ==> s.dirUse[d] == DirUsed(s, d) && r.dirUse[d] == DirUsed(r, d);
  }

  // ----- one address space more, or one in the place of another

  /** r has the further address space m: exactly its frames, tables and directory are in use besides those of
      s, and none of them was. */
  ghost predicate Grown(s: Machine, r: Machine, m: nat) {
    && m in r.mms
    && (forall f: nat :: FrameUsed(r, f) <==> FrameUsed(s, f) || MapsSome(r, m, f))
    && (forall f: nat :: MapsSome(r, m, f) ==> !FrameUsed(s, f))
    && (forall t: nat :: TableUsed(r, t) <==> TableUsed(s, t) || UsesSome(r, m, t))
    && (forall t: nat :: UsesSome(r, m, t) ==> !TableUsed(s, t))
    && (forall d: nat :: DirUsed(r, d) <==> DirUsed(s, d) || d == r.mms[m].pgd)
    && !DirUsed(s, r.mms[m].pgd)
  }

  ghost predicate OneMore(s: Machine, r: Machine, m: nat) {
    && Inv(s) && Inv(r) && m !in s.mms && r.mms.Keys == s.mms.Keys + {m}
    && forall u :: u in s.mms ==> Undisturbed(s, r, u)
  }

  lemma FrameGrown(s: Machine, r: Machine, m: nat, f: nat)
    requires OneMore(s, r, m)
    ensures FrameUsed(r, f) <==> FrameUsed(s, f) || MapsSome(r, m, f)
    ensures MapsSome(r, m, f) ==> !FrameUsed(s, f)
  {
    assert FrameOk(s, f) && FrameOk(r, f);
    if FrameUsed(s, f) && f >= KERNEL_FRAMES {
      var u, p := OwnedMaps(s, f);
      assert Undisturbed(s, r, u) && Maps(r, u, p, f);
      MapsOwned(r, u, p, f);
      forall q ensures !Maps(r, m, q, f) {
        if Maps(r, m, q, f) { MapsOwned(r, m, q, f); }
      }
    }
    if FrameUsed(r, f) && f >= KERNEL_FRAMES {
      var u, p := OwnedMaps(r, f);
      if u != m {
        assert Undisturbed(s, r, u) && Maps(s, u, p, f);
        MapsOwned(s, u, p, f);
      }
    }
    forall q | Maps(r, m, q, f) ensures FrameUsed(r, f) && f >= KERNEL_FRAMES { MapsOwned(r, m, q, f); }
  }

  lemma TableGrown(s: Machine, r: Machine, m: nat, t: nat)
    requires OneMore(s, r, m)
    ensures TableUsed(r, t) <==> TableUsed(s, t) || UsesSome(r, m, t)
    ensures UsesSome(r, m, t) ==> !TableUsed(s, t)
  {
    if TableUsed(s, t) {
      var u, i := OwnedTable(s, t);
      assert Undisturbed(s, r, u) && UsesTable(r, u, i, t);
      TableOwner(r, u, i, t);
      forall k: nat ensures !UsesTable(r, m, k, t) {
        if UsesTable(r, m, k, t) { TableOwner(r, m, k, t); }
      }
    }
    if TableUsed(r, t) {
      var u, i := OwnedTable(r, t);
      if u != m {
        assert Undisturbed(s, r, u) && UsesTable(s, u, i, t);
        TableOwner(s, u, i, t);
      }
    }
    forall k: nat | UsesTable(r, m, k, t) ensures TableUsed(r, t) { TableOwner(r, m, k, t); }
  }

  lemma DirGrown(s: Machine, r: Machine, m: nat, d: nat)
    requires OneMore(s, r, m)
    ensures DirUsed(r, d) <==> DirUsed(s, d) || d == r.mms[m].pgd
    ensures !DirUsed(s, r.mms[m].pgd)
  {
    var e := r.mms[m].pgd;
    assert MmOk(r, m) && DirOk(r, e) && DirOk(s, e) && DirOk(r, d) && DirOk(s, d);
    assert e in s.own.dir ==> Undisturbed(s, r, s.own.dir[e]) && MmOk(r, s.own.dir[e]);
    if DirUsed(s, d) { assert Undisturbed(s, r, s.own.dir[d]) && MmOk(r, s.own.dir[d]); }
    if DirUsed(r, d) && r.own.dir[d] != m { assert Undisturbed(s, r, r.own.dir[d]) && MmOk(s, r.own.dir[d]); }
  }

  lemma OneMoreGrows(s: Machine, r: Machine, m: nat)
    requires OneMore(s, r, m)
    ensures Grown(s, r, m)
  {
    forall f: nat
      ensures (FrameUsed(r, f) <==> FrameUsed(s, f) || MapsSome(r, m, f)) && (MapsSome(r, m, f) ==> !FrameUsed(s, f))
    {
      FrameGrown(s, r, m, f);
    }
    forall t: nat
      ensures (TableUsed(r, t) <==> TableUsed(s, t) || UsesSome(r, m, t)) && (UsesSome(r, m, t) ==> !TableUsed(s, t))
    {
      TableGrown(s, r, m, t);
    }
    forall d: nat ensures (DirUsed(r, d) <==> DirUsed(s, d) || d == r.mms[m].pgd) && !DirUsed(s, r.mms[m].pgd) {
      DirGrown(s, r, m, d);
    }
  }

  lemma UndisturbedUse(s: Machine, r: Machine, u: nat)
    requires Undisturbed(s, r, u)
    ensures forall f: nat :: MapsSome(r, u, f) <==> MapsSome(s, u, f)
    ensures forall t: nat :: UsesSome(r, u, t) <==> UsesSome(s, u, t)
  {
    assert forall p, f: nat :: Maps(r, u, p, f) <==> Maps(s, u, p, f);
    assert forall i: nat, t: nat :: UsesTable(r, u, i, t) <==> UsesTable(s, u, i, t);
  }

  /** r has address space m in the place of o: exactly the frames, tables and directory of o are free again,
      exactly those of m are taken, and those of m were free before. */
  ghost predicate Exchanged(s: Machine, r: Machine, o: nat, m: nat) {
    && o in s.mms && m in r.mms && r.mms.Keys == s.mms.Keys + {m} - {o}
    && (forall f: nat :: FrameUsed(r, f) <==> (FrameUsed(s, f) && !MapsSome(s, o, f)) || MapsSome(r, m, f))
    && (forall f: nat :: MapsSome(r, m, f) ==> !FrameUsed(s, f))
    && (forall t: nat :: TableUsed(r, t) <==> (TableUsed(s, t) && !UsesSome(s, o, t)) || UsesSome(r, m, t))
    && (forall t: nat :: UsesSome(r, m, t) ==> !TableUsed(s, t))
    && (forall d: nat :: DirUsed(r, d) <==> (DirUsed(s, d) && d != s.mms[o].pgd) || d == r.mms[m].pgd)
    && !DirUsed(s, r.mms[m].pgd)
  }

  lemma UsedBy(s: Machine, m: nat)
    requires Inv(s) && m in s.mms
    ensures forall f: nat :: MapsSome(s, m, f) ==> FrameUsed(s, f)
    ensures forall t: nat :: UsesSome(s, m, t) ==> TableUsed(s, t)
    ensures DirUsed(s, s.mms[m].pgd)
  {
    forall f: nat, p: nat | Maps(s, m, p, f) ensures FrameUsed(s, f) { MapsOwned(s, m, p, f); }
    forall t: nat, i: nat | UsesTable(s, m, i, t) ensures TableUsed(s, t) { TableOwner(s, m, i, t); }
    assert MmOk(s, m) && DirOk(s, s.mms[m].pgd);
  }

  /** Growing by m and then losing o is an exchange. */
  lemma GrownThenLess(s: Machine, g: Machine, r: Machine, o: nat, m: nat)
    requires OneMore(s, g, m) && OneMore(r, g, o) && o in s.mms
    ensures Exchanged(s, r, o, m)
  {
    OneMoreGrows(s, g, m);
    OneMoreGrows(r, g, o);
    assert m in r.mms && Undisturbed(r, g, m) && Undisturbed(s, g, o);
    UndisturbedUse(r, g, m);
    UndisturbedUse(s, g, o);
    UsedBy(s, o);
    UsedBy(r, m);
    GrownExchange(s, g, r, o, m);
  }

  lemma GrownExchange(s: Machine, g: Machine, r: Machine, o: nat, m: nat)
    requires Grown(s, g, m) && Grown(r, g, o) && o in s.mms && m in r.mms
    requires g.mms.Keys == s.mms.Keys + {m} == r.mms.Keys + {o} && m !in s.mms && o !in r.mms
    requires g.mms[m] == r.mms[m] && g.mms[o] == s.mms[o]
    requires forall f: nat :: MapsSome(g, m, f) <==> MapsSome(r, m, f)
    requires forall f: nat :: MapsSome(g, o, f) <==> MapsSome(s, o, f)
    requires forall t: nat :: UsesSome(g, m, t) <==> UsesSome(r, m, t)
    requires forall t: nat :: UsesSome(g, o, t) <==> UsesSome(s, o, t)
    requires forall f: nat :: MapsSome(s, o, f) ==> FrameUsed(s, f)
    requires forall t: nat :: UsesSome(s, o, t) ==> TableUsed(s, t)
    requires DirUsed(s, s.mms[o].pgd) && DirUsed(r, r.mms[m].pgd)
    ensures Exchanged(s, r, o, m)
  {
  }

  // ----- each operation disturbs at most the address space it works on

  lemma AddTableUndisturbs(s: Machine, r: Machine, d: nat, i: nat, t: nat, u: nat)
    requires CanAdd(s, d, i, t) && TableAdded(s, r, d, i, t) && u in s.mms && s.mms[u].pgd != d
    ensures Undisturbed(s, r, u)
  {
    assert MmOk(s, u);
    AddTableBytes(s, r, d, i, t, u);
    forall p ensures Walk(r, Pool(s.mms[u].pgd), p) == Walk(s, Pool(s.mms[u].pgd), p) {
      AddTableWalks(s, r, d, i, t, Pool(s.mms[u].pgd), p);
    }
  }

  lemma AddPageUndisturbs(s: Machine, r: Machine, m: nat, v: Area, t: nat, p: nat, f: nat, u: nat)
    requires m in s.mms && CanMap(s, s.mms[m].pgd, t, p, f)
    requires FindArea(s.mms[m].areas, p) == Some(v) && PageAdded(s, r, t, p, f, FillPage(v, p))
    requires u in s.mms && u != m
    ensures Undisturbed(s, r, u)
  {
    assert MmOk(s, u) && MmOk(s, m);
    AddPageBytes(s, r, m, v, t, p, f, u);
    forall q ensures Walk(r, Pool(s.mms[u].pgd), q) == Walk(s, Pool(s.mms[u].pgd), q) {
      AddPageWalks(s, r, s.mms[m].pgd, t, p, f, FillPage(v, p), Pool(s.mms[u].pgd), q);
    }
    forall i: nat ensures PdeOf(r, Pool(s.mms[u].pgd), i) == PdeOf(s, Pool(s.mms[u].pgd), i) {}
  }

  lemma FaultUndisturbs(s: Machine, m: nat, p: nat, read: Read, u: nat)
    requires MayFault(s, m, p, read) && u in s.mms && u != m
    ensures s.mms[m].pgd < DIRS && Undisturbed(s, PageFault(s, m, p, read).0, u)
  {
    var d := s.mms[m].pgd;
    assert MmOk(s, m) && DirOk(s, d) && MmOk(s, u);
    NotKernelPage(s, d, p);
    FreshFrame(s);
    EnsureTableKeeps(s, m, p, read);
    var i, t, f := Pdi(p), FirstFree(s.tableUse), FirstFree(s.frameUse);
    var s1 := EnsureTable(s, d, i);
    if PdeOf(s, Pool(d), i) == NoTable && t < TABLES {
      AddTableEffect(s, d, i, t);
      AddTableUndisturbs(s, s1, d, i, t, u);
    }
    var v := FindArea(s.mms[m].areas, p);
    var e := PdeOf(s1, Pool(d), i);
    if v.Some? && f < FRAMES && e.UserTable? {
      LastStepUndisturbs(s1, m, p, read, v.value, e.table, f, u);
    }
  }

  lemma LastStepUndisturbs(s: Machine, m: nat, p: nat, read: Read, v: Area, t: nat, f: nat, u: nat)
    requires m in s.mms && CanMap(s, s.mms[m].pgd, t, p, f) && u in s.mms && u != m
    requires FindArea(s.mms[m].areas, p) == Some(v)
    requires read.ReadFailed? ==> |read.left| == PAGE
    ensures Undisturbed(s, if read.ReadFailed? then Unread(s, p, f, read.left)
                           else AddPage(s, t, p, f, FillPage(v, p)), u)
  {
    if read.ReadFailed? {
      UnreadKeeps(s, p, f, read.left);
      SameOwnership(s, Unread(s, p, f, read.left));
      var d := Pool(s.mms[u].pgd);
      forall i: nat ensures PdeOf(Unread(s, p, f, read.left), d, i) == PdeOf(s, d, i) {}
    } else {
      AddPageEffect(s, t, p, f, FillPage(v, p));
      AddPageUndisturbs(s, AddPage(s, t, p, f, FillPage(v, p)), m, v, t, p, f, u);
    }
  }

  lemma SetCr3Undisturbs(s: Machine, d: Dir, u: nat)
    requires Inv(s) && DirLive(s, d) && u in s.mms
    ensures Undisturbed(s, SetCr3(s, d), u)
  {
    SetCr3Keeps(s, d);
    SameOwnership(s, SetCr3(s, d));
    forall i: nat ensures PdeOf(SetCr3(s, d), Pool(s.mms[u].pgd), i) == PdeOf(s, Pool(s.mms[u].pgd), i) {}
  }

  lemma SetAreasUndisturbs(s: Machine, m: nat, vs: seq<Area>, u: nat)
    requires Inv(s) && m in s.mms && u in s.mms && u != m
    ensures Undisturbed(s, SetAreas(s, m, vs), u)
  {
    SetAreasKeeps(s, m, vs);
    forall i: nat ensures PdeOf(SetAreas(s, m, vs), Pool(s.mms[u].pgd), i) == PdeOf(s, Pool(s.mms[u].pgd), i) {}
  }

  lemma CreateMmUndisturbs(s: Machine, r: Machine, m: nat, d: nat, u: nat)
    requires CanCreate(s, m, d) && MmAdded(s, r, m, d) && u in s.mms
    ensures Undisturbed(s, r, u)
  {
    assert MmOk(s, u) && DirOk(s, d);
    CreateMmBytes(s, r, m, d, u);
    forall p ensures Walk(r, Pool(s.mms[u].pgd), p) == Walk(s, Pool(s.mms[u].pgd), p) {
      assert forall t, j :: PteOf(r, t, j) == PteOf(s, t, j);
    }
  }

  lemma ReleaseUndisturbs(s: Machine, r: Machine, m: nat, d: nat, u: nat)
    requires CanRelease(s, m, d) && Released(s, r, m, d) && u in s.mms && u != m
    ensures Undisturbed(s, r, u)
  {
    assert MmOk(s, u) && MmOk(s, m);
    ReleaseKeeps(s, r, m, d);
    forall p ensures Walk(r, Pool(s.mms[u].pgd), p) == Walk(s, Pool(s.mms[u].pgd), p) {
      assert forall t, j :: PteOf(r, t, j) == PteOf(s, t, j);
    }
  }

  /** A store through a user mapping changes one byte of one address space and nothing else. */
  lemma StoreChangesOneByte(s: Machine, m: nat, p: nat, f: nat, k: nat, b: Byte)
    requires Inv(s) && Maps(s, m, p, f) && k < PAGE
    ensures f < FRAMES
    ensures var r := StoreByte(s, f, k, b);
            && Inv(r) && r.mms == s.mms
            && (forall q: nat, j: nat :: q < PAGES && j < PAGE ==>
                  ByteAt(r, m, q, j) == if q == p && j == k then Some(b) else ByteAt(s, m, q, j))
            && (forall u :: u in s.mms && u != m ==> Undisturbed(s, r, u))
  {
    MapsOwned(s, m, p, f);
    var r := StoreByte(s, f, k, b);
    SameOwnership(s, r);
    forall q ensures TlbOk(r, q) { assert TlbOk(s, q); }
    forall u, q: nat, j: nat | u in s.mms && q < PAGES && j < PAGE
      ensures ByteAt(r, u, q, j) == if u == m && q == p && j == k then Some(b) else ByteAt(s, u, q, j)
    {
      OnlyThatByte(s, m, p, f, k, b, u, q, j);
    }
    forall u | u in s.mms && u != m ensures Undisturbed(s, r, u) {
      forall i: nat ensures PdeOf(r, Pool(s.mms[u].pgd), i) == PdeOf(s, Pool(s.mms[u].pgd), i) {}
    }
  }

  lemma OnlyThatByte(s: Machine, m: nat, p: nat, f: nat, k: nat, b: Byte, u: nat, q: nat, j: nat)
    requires Inv(s) && Maps(s, m, p, f) && k < PAGE && f < FRAMES && u in s.mms && q < PAGES && j < PAGE
    ensures ByteAt(StoreByte(s, f, k, b), u, q, j) == if u == m && q == p && j == k then Some(b) else ByteAt(s, u, q, j)
  {
    var r := StoreByte(s, f, k, b);
    SameOwnership(s, r);
    MapsOwned(s, m, p, f);
    assert MmOk(s, u);
    if Walk(s, Pool(s.mms[u].pgd), q) == Some(f) {
      if PdeOf(s, Pool(s.mms[u].pgd), Pdi(q)).UserTable? {
        assert Maps(s, u, q, f);
        MapsOwned(s, u, q, f);
        PageSplit(p, q);
      }
    }
  }
}
