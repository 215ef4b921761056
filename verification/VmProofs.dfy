/** What every operation on the machine keeps: single ownership of frames, tables and directories, a
    truthful TLB, and the memory that each address space sees. */
module VmProofs {
  import opened Words
  import opened Vm

  /** Nothing about ownership depends on the bytes, the TLB, cr3 or the areas. */
  lemma SameOwnership(s: Machine, r: Machine)
    requires Inv(s) && Shape(r) && r.own == s.own
    requires r.dirUse == s.dirUse && r.dirs == s.dirs && r.tableUse == s.tableUse && r.tables == s.tables
    requires r.frameUse == s.frameUse
    requires r.mms.Keys == s.mms.Keys && forall m :: m in s.mms ==> r.mms[m].pgd == s.mms[m].pgd
    ensures Ownership(r)
    ensures forall d, p :: Walk(r, d, p) == Walk(s, d, p)
  {
    forall x ensures DirOk(r, x) { assert DirOk(s, x); }
    forall x, k ensures KernelOk(r, x, k) { assert KernelOk(s, x, k); }
    forall m ensures MmOk(r, m) { assert MmOk(s, m); }
    forall u ensures TableOk(r, u) { assert TableOk(s, u); }
    forall x, k ensures EntryOk(r, x, k) { assert EntryOk(s, x, k); }
    forall g ensures FrameOk(r, g) { assert FrameOk(s, g); }
    forall u, j ensures MappingOk(r, u, j) { assert MappingOk(s, u, j); }
    forall d, p ensures Walk(r, d, p) == Walk(s, d, p) {
      assert forall e, i :: PdeOf(r, e, i) == PdeOf(s, e, i);
    }
  }

  // ----- adding an empty table

  /** r is s with the empty table t entered in slot i of directory d, seen through the accessors. */
  ghost predicate TableAdded(s: Machine, r: Machine, d: nat, i: nat, t: nat) {
    && Shape(r)
    && r.frameUse == s.frameUse && r.dirUse == s.dirUse && r.ram == s.ram && r.cr3 == s.cr3 && r.tlb == s.tlb
    && r.mms == s.mms
    && r.own == s.own.(table := s.own.table[t := Slot(d, i)])
    && (forall u :: TableUsed(r, u) <==> u == t || TableUsed(s, u))
    && (forall e, k :: PdeOf(r, e, k) == if e == Pool(d) && k == i then UserTable(t) else PdeOf(s, e, k))
    && (forall u, j :: PteOf(r, u, j) == if u == t then NoPage else PteOf(s, u, j))
  }

  lemma AddTableEffect(s: Machine, d: nat, i: nat, t: nat)
    requires Shape(s) && d < DIRS && i < ENTRIES && t < TABLES
    ensures TableAdded(s, AddTable(s, d, i, t), d, i, t)
  {
  }

  ghost predicate CanAdd(s: Machine, d: nat, i: nat, t: nat) {
    && Inv(s) && d in s.own.dir && i < ENTRIES && t < TABLES && !TableUsed(s, t)
    && PdeOf(s, Pool(d), i) == NoTable && !KernelSlot(i)
  }

  lemma AddTableWalks(s: Machine, r: Machine, d: nat, i: nat, t: nat, e: Dir, p: nat)
    requires CanAdd(s, d, i, t) && TableAdded(s, r, d, i, t) && DirLive(s, e)
    ensures Walk(r, e, p) == Walk(s, e, p)
  {
    assert TableOk(s, t);
    if e.Pool? { assert EntryOk(s, e.slot, Pdi(p)); }
  }

  lemma AddTableKeeps(s: Machine, r: Machine, d: nat, i: nat, t: nat)
    requires CanAdd(s, d, i, t) && TableAdded(s, r, d, i, t)
    ensures Inv(r)
  {
    assert TableOk(s, t) && DirOk(s, d);
    forall x ensures DirOk(r, x) { assert DirOk(s, x); }
    forall x, k ensures KernelOk(r, x, k) { assert KernelOk(s, x, k); }
    forall m ensures MmOk(r, m) { assert MmOk(s, m); }
    forall u ensures TableOk(r, u) { assert TableOk(s, u); }
    forall x, k ensures EntryOk(r, x, k) { assert EntryOk(s, x, k); }
    forall f ensures FrameOk(r, f) { assert FrameOk(s, f); }
    forall u, j ensures MappingOk(r, u, j) { assert MappingOk(s, u, j); }
    forall p ensures TlbOk(r, p) { assert TlbOk(s, p); AddTableWalks(s, r, d, i, t, s.cr3, p); }
  }

  // ----- mapping a fresh frame

  ghost predicate PageAdded(s: Machine, r: Machine, t: nat, p: nat, f: nat, c: seq<Byte>) {
    && Shape(r)
    && r.dirUse == s.dirUse && r.tableUse == s.tableUse && r.dirs == s.dirs && r.cr3 == s.cr3 && r.mms == s.mms
    && r.tlb == s.tlb[p := f]
    && r.own == s.own.(frame := s.own.frame[f := Slot(t, Pti(p))])
    && (forall g :: FrameUsed(r, g) <==> g == f || FrameUsed(s, g))
    && (forall u, j :: PteOf(r, u, j) == if u == t && j == Pti(p) then Page(f) else PteOf(s, u, j))
    && |c| == PAGE
    && (forall g: nat, k: nat :: RamAt(r, g, k) == if g == f && k < PAGE then Some(c[k]) else RamAt(s, g, k))
  }

  lemma AddPageEffect(s: Machine, t: nat, p: nat, f: nat, c: seq<Byte>)
    requires Shape(s) && t < TABLES && p < PAGES && f < FRAMES && |c| == PAGE
    ensures PageAdded(s, AddPage(s, t, p, f, c), t, p, f, c)
  {
  }

  ghost predicate CanMap(s: Machine, d: nat, t: nat, p: nat, f: nat) {
    && Inv(s) && d in s.own.dir && p < PAGES && t < TABLES
    && PdeOf(s, Pool(d), Pdi(p)) == UserTable(t) && PteOf(s, t, Pti(p)) == NoPage
    && KERNEL_FRAMES <= f < FRAMES && !FrameUsed(s, f)
  }

  lemma AddPageWalks(s: Machine, r: Machine, d: nat, t: nat, p: nat, f: nat, c: seq<Byte>, e: Dir, q: nat)
    requires CanMap(s, d, t, p, f) && PageAdded(s, r, t, p, f, c) && DirLive(s, e)
    ensures Walk(r, e, q) == if e == Pool(d) && q == p then Some(f) else Walk(s, e, q)
  {
    assert EntryOk(s, d, Pdi(p));
    if e.Pool? { assert EntryOk(s, e.slot, Pdi(q)); }
    if Pdi(q) == Pdi(p) && Pti(q) == Pti(p) { PageSplit(p, q); }
  }

  lemma AddPageKeeps(s: Machine, r: Machine, d: nat, t: nat, p: nat, f: nat, c: seq<Byte>)
    requires CanMap(s, d, t, p, f) && PageAdded(s, r, t, p, f, c) && s.cr3 == Pool(d)
    ensures Inv(r)
  {
    assert FrameOk(s, f) && EntryOk(s, d, Pdi(p));
    forall x ensures DirOk(r, x) { assert DirOk(s, x); }
    forall x, k ensures KernelOk(r, x, k) { assert KernelOk(s, x, k); }
    forall m ensures MmOk(r, m) { assert MmOk(s, m); }
    forall u ensures TableOk(r, u) { assert TableOk(s, u); }
    forall x, k ensures EntryOk(r, x, k) { assert EntryOk(s, x, k); }
    forall g ensures FrameOk(r, g) { assert FrameOk(s, g); }
    forall u, j ensures MappingOk(r, u, j) { assert MappingOk(s, u, j); }
    forall q ensures TlbOk(r, q) { assert TlbOk(s, q); AddPageWalks(s, r, d, t, p, f, c, s.cr3, q); }
  }

  // ----- what programs see

  /** Address space m holds the same bytes in both states. */
  ghost predicate SameBytes(s: Machine, r: Machine, m: nat)
    requires m in s.mms && m in r.mms
  {
    forall p: nat, k: nat :: p < PAGES && k < PAGE ==> ByteAt(r, m, p, k) == ByteAt(s, m, p, k)
  }

  lemma AddTableBytes(s: Machine, r: Machine, d: nat, i: nat, t: nat, m: nat)
    requires CanAdd(s, d, i, t) && TableAdded(s, r, d, i, t) && m in s.mms
    ensures SameBytes(s, r, m)
  {
    assert MmOk(s, m);
    forall p: nat, k: nat | p < PAGES && k < PAGE ensures ByteAt(r, m, p, k) == ByteAt(s, m, p, k) {
      AddTableWalks(s, r, d, i, t, Pool(s.mms[m].pgd), p);
    }
  }

  /** A mapped user frame is in use. */
  lemma WalkedFrame(s: Machine, d: Dir, p: nat)
    requires Inv(s) && DirLive(s, d) && Walk(s, d, p).Some?
    ensures var f := Walk(s, d, p).value; FrameUsed(s, f) && f < FRAMES
  {
    var f := Walk(s, d, p).value;
    if PdeOf(s, d, Pdi(p)).UserTable? {
      assert EntryOk(s, d.slot, Pdi(p));
      assert MappingOk(s, PdeOf(s, d, Pdi(p)).table, Pti(p));
    }
    assert FrameOk(s, f);
  }

  lemma AddPageBytes(s: Machine, r: Machine, m: nat, v: Area, t: nat, p: nat, f: nat, u: nat)
    requires m in s.mms && CanMap(s, s.mms[m].pgd, t, p, f)
    requires FindArea(s.mms[m].areas, p) == Some(v) && PageAdded(s, r, t, p, f, FillPage(v, p))
    requires u in s.mms
    ensures SameBytes(s, r, u)
  {
    assert MmOk(s, m) && MmOk(s, u);
    var e := Pool(s.mms[u].pgd);
    forall q: nat, k: nat | q < PAGES && k < PAGE ensures ByteAt(r, u, q, k) == ByteAt(s, u, q, k) {
      AddPageWalks(s, r, s.mms[m].pgd, t, p, f, FillPage(v, p), e, q);
      if Walk(s, e, q).Some? {
        WalkedFrame(s, e, q);
      }
    }
  }

  // ----- the fault handler

  ghost predicate MayFault(s: Machine, m: nat, p: nat, read: Read) {
    && Inv(s) && m in s.mms && s.cr3 == Pool(s.mms[m].pgd) && p < PAGES && Walk(s, s.cr3, p) == None
    && (read.ReadFailed? ==> |read.left| == PAGE)
  }

  /** Kernel pages are always mapped, so the directory entry of an unmapped page is not the kernel's. */
  lemma NotKernelPage(s: Machine, d: nat, p: nat)
    requires Inv(s) && d in s.own.dir && p < PAGES && Walk(s, Pool(d), p) == None
    ensures !KernelSlot(Pdi(p)) && !PdeOf(s, Pool(d), Pdi(p)).KernelTable?
  {
    assert KernelOk(s, d, Pdi(p));
  }

  lemma EnsureTableKeeps(s: Machine, m: nat, p: nat, read: Read)
    requires MayFault(s, m, p, read)
    ensures s.mms[m].pgd < DIRS && Pdi(p) < ENTRIES
    ensures var d := s.mms[m].pgd; var r := EnsureTable(s, d, Pdi(p));
            && Inv(r) && r.mms == s.mms && r.cr3 == s.cr3 && r.frameUse == s.frameUse && r.tlb == s.tlb
            && r.own.frame == s.own.frame
            && Walk(r, r.cr3, p) == None && (forall u :: u in s.mms ==> SameBytes(s, r, u))
            && (PdeOf(r, Pool(d), Pdi(p)).UserTable? ==> PdeOf(r, Pool(d), Pdi(p)).table < TABLES)
  {
    var d, i := s.mms[m].pgd, Pdi(p);
    assert MmOk(s, m) && DirOk(s, d) && EntryOk(s, d, i);
    NotKernelPage(s, d, p);
    var t := FirstFree(s.tableUse);
    if PdeOf(s, Pool(d), i) == NoTable && t < TABLES {
      var r := AddTable(s, d, i, t);
      AddTableEffect(s, d, i, t);
      AddTableKeeps(s, r, d, i, t);
      AddTableWalks(s, r, d, i, t, s.cr3, p);
      forall u | u in s.mms ensures SameBytes(s, r, u) { AddTableBytes(s, r, d, i, t, u); }
    } else if PdeOf(s, Pool(d), i).UserTable? {
      assert TableOk(s, PdeOf(s, Pool(d), i).table);
    }
  }

  lemma FreshFrame(s: Machine)
    requires Inv(s)
    ensures FirstFree(s.frameUse) >= KERNEL_FRAMES && !FrameUsed(s, FirstFree(s.frameUse))
  {
    assert FrameOk(s, FirstFree(s.frameUse));
  }

  lemma UnreadKeeps(s: Machine, p: nat, f: nat, left: seq<Byte>)
    requires Inv(s) && f < FRAMES && !FrameUsed(s, f) && |left| == PAGE
    ensures Inv(Unread(s, p, f, left))
    ensures forall u :: u in s.mms ==> SameBytes(s, Unread(s, p, f, left), u)
  {
    var r := Unread(s, p, f, left);
    SameOwnership(s, r);
    forall q ensures TlbOk(r, q) { assert TlbOk(s, q); assert Walk(r, r.cr3, q) == Walk(s, s.cr3, q); }
    forall u | u in s.mms ensures SameBytes(s, r, u) { UnreadBytes(s, p, f, left, u); }
  }

  lemma UnreadBytes(s: Machine, p: nat, f: nat, left: seq<Byte>, u: nat)
    requires Inv(s) && f < FRAMES && !FrameUsed(s, f) && |left| == PAGE && u in s.mms
    ensures SameBytes(s, Unread(s, p, f, left), u)
  {
    var r := Unread(s, p, f, left);
    assert MmOk(s, u);
    var e := Pool(s.mms[u].pgd);
    forall q: nat, k: nat | q < PAGES && k < PAGE ensures ByteAt(r, u, q, k) == ByteAt(s, u, q, k) {
      assert Walk(r, e, q) == Walk(s, e, q);
      if Walk(s, e, q).Some? {
        WalkedFrame(s, e, q);
      }
    }
  }

  /** A fault, resolved or not, keeps the invariant and changes no byte of any address space; a resolved
      one maps the page. */
  lemma FaultKeeps(s: Machine, m: nat, p: nat, read: Read)
    requires MayFault(s, m, p, read)
    ensures s.mms[m].pgd < DIRS
    ensures var (r, o) := PageFault(s, m, p, read);
            && Inv(r) && r.mms == s.mms && r.cr3 == s.cr3
            && (forall u :: u in s.mms ==> SameBytes(s, r, u))
            && (o == Resolved ==> Walk(r, r.cr3, p).Some?)
            && (o == Panic ==> r.frameUse == s.frameUse)
  {
    var d := s.mms[m].pgd;
    assert MmOk(s, m) && DirOk(s, d);
    var v, f := FindArea(s.mms[m].areas, p), FirstFree(s.frameUse);
    FreshFrame(s);
    if v.Some? && f < FRAMES {
      EnsureTableKeeps(s, m, p, read);
      var s1 := EnsureTable(s, d, Pdi(p));
      var e := PdeOf(s1, Pool(d), Pdi(p));
      if e.UserTable? {
        if read.ReadFailed? {
          UnreadKeeps(s1, p, f, read.left);
        } else {
          FaultMaps(s1, m, p, v.value, e.table, f);
          forall u | u in s.mms ensures SameBytes(s, AddPage(s1, e.table, p, f, FillPage(v.value, p)), u) {
            assert SameBytes(s, s1, u);
          }
        }
      }
    }
  }

  lemma FaultMaps(s: Machine, m: nat, p: nat, v: Area, t: nat, f: nat)
    requires m in s.mms && CanMap(s, s.mms[m].pgd, t, p, f) && s.cr3 == Pool(s.mms[m].pgd)
    requires FindArea(s.mms[m].areas, p) == Some(v)
    ensures var r := AddPage(s, t, p, f, FillPage(v, p));
            && Inv(r) && r.mms == s.mms && r.cr3 == s.cr3 && Walk(r, r.cr3, p).Some?
            && forall u :: u in s.mms ==> SameBytes(s, r, u)
  {
    var r := AddPage(s, t, p, f, FillPage(v, p));
    AddPageEffect(s, t, p, f, FillPage(v, p));
    AddPageKeeps(s, r, s.mms[m].pgd, t, p, f, FillPage(v, p));
    AddPageWalks(s, r, s.mms[m].pgd, t, p, f, FillPage(v, p), s.cr3, p);
    forall u | u in s.mms ensures SameBytes(s, r, u) {
      AddPageBytes(s, r, m, v, t, p, f, u);
    }
  }

  // ----- creating, switching, releasing address spaces

  /** r is s with directory d, holding only the kernel entries, for the new address space m. */
  ghost predicate MmAdded(s: Machine, r: Machine, m: nat, d: nat) {
    && Shape(r) && r.frameUse == s.frameUse && r.tableUse == s.tableUse && r.tables == s.tables && r.ram == s.ram
    && r.cr3 == s.cr3 && r.tlb == s.tlb && r.mms == s.mms[m := Mm(d, [])]
    && r.own == s.own.(dir := s.own.dir[d := m])
    && (forall x :: DirUsed(r, x) <==> x == d || DirUsed(s, x))
    && (forall e, k :: e != Pool(d) ==> PdeOf(r, e, k) == PdeOf(s, e, k))
    && (forall k: nat :: PdeOf(r, Pool(d), k)
          == if k < ENTRIES && PdeOf(s, s.cr3, k) == KernelTable then KernelTable else NoTable)
  }

  lemma CreateMmEffect(s: Machine, m: nat)
    requires Shape(s)
    ensures var (r, ok) := CreateMm(s, m);
            if ok then FirstFree(s.dirUse) < DIRS && MmAdded(s, r, m, FirstFree(s.dirUse)) else r == s
  {
    assert |KernelPart(s, s.cr3)| == ENTRIES;
  }

  ghost predicate CanCreate(s: Machine, m: nat, d: nat) {
    Inv(s) && m !in s.mms && d < DIRS && !DirUsed(s, d)
  }

  lemma NewDirIsBoot(s: Machine, r: Machine, m: nat, d: nat, k: nat)
    requires CanCreate(s, m, d) && MmAdded(s, r, m, d)
    ensures PdeOf(r, Pool(d), k) == PdeOf(r, Boot, k)
  {
    if s.cr3.Pool? { assert KernelOk(s, s.cr3.slot, k); }
  }

  lemma CreateMmKeeps(s: Machine, r: Machine, m: nat, d: nat)
    requires CanCreate(s, m, d) && MmAdded(s, r, m, d)
    ensures Inv(r) && r.cr3 != Pool(d)
    ensures forall p :: Walk(r, Pool(d), p) == Walk(r, Boot, p)
  {
    assert DirOk(s, d);
    forall k: nat ensures PdeOf(r, Pool(d), k) == PdeOf(r, Boot, k) { NewDirIsBoot(s, r, m, d, k); }
    forall x ensures DirOk(r, x) { assert DirOk(s, x); }
    forall x, k ensures KernelOk(r, x, k) { assert KernelOk(s, x, k); }
    forall u ensures MmOk(r, u) { assert MmOk(s, u); }
    forall u ensures TableOk(r, u) { assert TableOk(s, u); }
    forall x, k ensures EntryOk(r, x, k) { assert EntryOk(s, x, k); }
    forall g ensures FrameOk(r, g) { assert FrameOk(s, g); }
    forall u, j ensures MappingOk(r, u, j) { assert MappingOk(s, u, j); }
    forall q ensures TlbOk(r, q) { assert TlbOk(s, q); }
  }

  lemma CreateMmBytes(s: Machine, r: Machine, m: nat, d: nat, u: nat)
    requires CanCreate(s, m, d) && MmAdded(s, r, m, d) && u in s.mms
    ensures u in r.mms && SameBytes(s, r, u)
  {
    assert MmOk(s, u) && DirOk(s, d);
  }

  lemma SetCr3Keeps(s: Machine, d: Dir)
    requires Inv(s) && DirLive(s, d)
    ensures Inv(SetCr3(s, d)) && forall u :: u in s.mms ==> SameBytes(s, SetCr3(s, d), u)
  {
    var r := SetCr3(s, d);
    SameOwnership(s, r);
  }

  lemma SetAreasKeeps(s: Machine, m: nat, vs: seq<Area>)
    requires Inv(s) && m in s.mms
    ensures Inv(SetAreas(s, m, vs)) && forall u :: u in s.mms && u != m ==> SameBytes(s, SetAreas(s, m, vs), u)
    ensures forall d, p :: Walk(SetAreas(s, m, vs), d, p) == Walk(s, d, p)
  {
    var r := SetAreas(s, m, vs);
    SameOwnership(s, r);
    forall q ensures TlbOk(r, q) { assert TlbOk(s, q); }
  }

  /** r is s after the release of address space m with directory d. */
  ghost predicate Released(s: Machine, r: Machine, m: nat, d: nat) {
    && Shape(r) && r.ram == s.ram && r.cr3 == s.cr3 && r.tlb == s.tlb && r.tables == s.tables
    && r.mms == s.mms - {m} && r.own == OwnersWithout(s.own, d)
    && (forall f :: FrameUsed(r, f) <==> FrameUsed(s, f) && !FrameOf(s.own, f, d))
    && (forall t :: TableUsed(r, t) <==> TableUsed(s, t) && !TableOf(s.own, t, d))
    && (forall x :: DirUsed(r, x) <==> x != d && DirUsed(s, x))
    && (forall e, k :: PdeOf(r, e, k) == if e == Pool(d) && PdeOf(s, e, k).UserTable? then NoTable else PdeOf(s, e, k))
  }

  lemma ReleaseEffect(s: Machine, m: nat)
    requires Shape(s) && m in s.mms && s.mms[m].pgd < DIRS
    ensures Released(s, Release(s, m), m, s.mms[m].pgd)
  {
    var d := s.mms[m].pgd;
    assert |FramesWithout(s, d)| == FRAMES && |TablesWithout(s, d)| == TABLES && |Cleared(s.dirs[d])| == ENTRIES;
  }

  ghost predicate CanRelease(s: Machine, m: nat, d: nat) {
    Inv(s) && m in s.mms && s.mms[m].pgd == d && s.cr3 != Pool(d)
  }

  lemma ReleaseKeeps(s: Machine, r: Machine, m: nat, d: nat)
    requires CanRelease(s, m, d) && Released(s, r, m, d)
    ensures Inv(r) && forall u :: u in r.mms ==> SameBytes(s, r, u)
  {
    assert MmOk(s, m);
    forall x ensures DirOk(r, x) { assert DirOk(s, x); }
    forall x, k ensures KernelOk(r, x, k) { assert KernelOk(s, x, k); }
    forall u ensures MmOk(r, u) { assert MmOk(s, u); }
    forall u ensures TableOk(r, u) { assert TableOk(s, u); }
    forall x, k ensures EntryOk(r, x, k) { assert EntryOk(s, x, k); }
    forall g ensures FrameOk(r, g) {
      assert FrameOk(s, g);
    }
    forall u, j ensures MappingOk(r, u, j) { assert MappingOk(s, u, j); }
    forall q ensures TlbOk(r, q) { assert TlbOk(s, q); assert Walk(r, r.cr3, q) == Walk(s, s.cr3, q); }
    forall u | u in r.mms ensures SameBytes(s, r, u) {
      assert MmOk(s, u);
      forall q ensures Walk(r, Pool(s.mms[u].pgd), q) == Walk(s, Pool(s.mms[u].pgd), q) {}
    }
  }
}
