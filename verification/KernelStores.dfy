/** Bytes stored in kernel mode, where the user bit does not protect anything: what such a store does to every task,
    and which of them damage a page table. */
module KernelStores {
  import opened Words
  import opened Vm
  import opened VmProofs
  import opened VmOwnership
  import opened MmapSpec
  import opened Elf
  import opened Loading
  import opened System
  import opened SystemProofs

  // ----- page tables as bytes

  /** The four bytes of a table entry: the flags present, writable and user, and the frame from bit 12 on. */
  function EntryBytes(e: Pte): (r: seq<Byte>)
    ensures |r| == 4
    ensures e.Page? && e.frame < FRAMES ==> U32(r, 0) == e.frame * PAGE + 7
  {
    match e
    case NoPage => [0, 0, 0, 0]
    case Page(f) =>
      assert f < FRAMES ==> f / 4096 % 256 == f / 4096 by { if f < FRAMES { FrameParts(f); } }
      [7, f % 16 * 16, f / 16 % 256, f / 4096 % 256]
  }

  lemma FrameParts(f: nat)
    requires f < FRAMES
    ensures f == f % 16 + 16 * (f / 16 % 256) + 4096 * (f / 4096) && f / 4096 < 4
  {
    assert f / 4096 == f / 16 / 256;
  }

  /** What the page walk finds in the four bytes: bit 0 says present, bits 12 to 31 are the frame. */
  function BytesEntry(bs: seq<Byte>): Pte
    requires |bs| == 4
  {
    if bs[0] % 2 == 0 then NoPage else Page(bs[1] as nat / 16 + 16 * bs[2] as nat + 4096 * bs[3] as nat)
  }

  /** Byte b as byte i of the entry leaves presence and frame as they are. */
  predicate Harmless(e: Pte, i: nat, b: Byte) {
    match e
    case NoPage => i != 0 || b % 2 == 0
    case Page(f) =>
      if i == 0 then b % 2 == 1
      else if i == 1 then b / 16 == f % 16
      else if i == 2 then b == f / 16 % 256
      else b == f / 4096
  }

  lemma HarmlessExact(e: Pte, i: nat, b: Byte)
    requires i < 4 && (e.Page? ==> e.frame < FRAMES)
    ensures Harmless(e, i, b) <==> BytesEntry(EntryBytes(e)[i := b]) == e
    ensures BytesEntry(EntryBytes(e)) == e
  {
    if e.Page? { FrameParts(e.frame); }
  }

  /** pt_pool lies in the kernel's memory: table t is frame pool + t. */
  predicate PoolAt(pool: nat) { pool + TABLES <= KERNEL_FRAMES }

  predicate InPool(pool: nat, f: nat) { pool <= f < pool + TABLES }

  /** Entry j of table t gets another value. */
  function Poke(s: Machine, t: nat, j: nat, e: Pte): Machine
    requires Shape(s) && t < TABLES && j < ENTRIES
  {
    s.(tables := s.tables[t := s.tables[t][j := e]])
  }

  /** A byte stored at offset k of frame f: a byte of a table entry, or of memory. */
  function PutByte(s: Machine, pool: nat, f: nat, k: nat, b: Byte): Machine
    requires Shape(s) && PoolAt(pool) && f < FRAMES && k < PAGE
  {
    if InPool(pool, f) then
      Poke(s, f - pool, k / 4, BytesEntry(EntryBytes(PteOf(s, f - pool, k / 4))[k % 4 := b]))
    else
      StoreByte(s, f, k, b)
  }

  // ----- the store

  ghost predicate CanStore(s: Sys, read: Read) {
    s.cur.Some? && HasMm(s, s.cur.value) && FaultReady(s.mach, s.tasks[s.cur.value].mm.value, read)
  }

  /** A byte stored in kernel mode: the user bit does not matter. None when the kernel panics. */
  ghost function KernelStore(s: Sys, pool: nat, p: nat, k: nat, b: Byte, read: Read): Option<Sys>
    requires CanStore(s, read) && PoolAt(pool) && p < PAGES && k < PAGE
  {
    var m := s.tasks[s.cur.value].mm.value;
    var (r, o) := if Translate(s, p) == None then PageFault(s.mach, m, p, read) else (s.mach, Resolved);
    if o == Panic then None
    else
      match Translate(s.(mach := r), p)
      case None => None
      case Some(f) =>
        if Shape(r) && f < FRAMES then Some(s.(mach := PutByte(r.(tlb := r.tlb[p := f]), pool, f, k, b))) else None
  }

  /** The pages of the kernel's own table, present in every directory. */
  predicate KernelPage(p: nat) { KernelSlot(Pdi(p)) }

  lemma KernelPageWalk(s: Sys, p: nat)
    requires SysInv(s) && KernelPage(p)
    ensures Translate(s, p) == Some(Pti(p)) && Pti(p) < KERNEL_FRAMES
    ensures forall u: nat :: HasMm(s, u) ==> Walk(s.mach, Pool(s.mach.mms[s.tasks[u].mm.value].pgd), p) == Some(Pti(p))
  {
    TranslateIsWalk(s, p);
    if s.mach.cr3.Pool? { assert KernelOk(s.mach, s.mach.cr3.slot, Pdi(p)); }
    forall u: nat | HasMm(s, u) ensures Walk(s.mach, Pool(s.mach.mms[s.tasks[u].mm.value].pgd), p) == Some(Pti(p)) {
      var m := s.tasks[u].mm.value;
      assert MmOk(s.mach, m) && KernelOk(s.mach, s.mach.mms[m].pgd, Pdi(p));
    }
  }

  lemma UserPageWalk(s: Machine, m: nat, p: nat)
    requires Inv(s) && m in s.mms && !KernelPage(p)
    ensures !PdeOf(s, Pool(s.mms[m].pgd), Pdi(p)).KernelTable?
  {
    assert MmOk(s, m) && KernelOk(s, s.mms[m].pgd, Pdi(p));
  }

  /** A resolved fault leaves the translation in the TLB. */
  lemma FaultCaches(s: Machine, m: nat, p: nat, read: Read)
    requires MayFault(s, m, p, read)
    ensures s.mms[m].pgd < DIRS
    ensures var (r, o) := PageFault(s, m, p, read); o == Resolved ==> p in r.tlb
  {
    EnsureTableKeeps(s, m, p, read);
  }

  /** Outside the kernel's pages a kernel store is an access of the task followed by a store of the task. */
  lemma KernelStoreIsUserStore(s: Sys, pool: nat, p: nat, k: nat, b: Byte, read: Read)
    requires CanAccess(s, p, read) && !KernelPage(p) && k < PAGE && PoolAt(pool)
    ensures CanStore(s, read)
    ensures match Access(s, p, read)
            case None => KernelStore(s, pool, p, k, b, read) == None
            case Some(r) => SysInv(r) && UserMapped(r, p) && Translate(r, p).value < FRAMES
                            && KernelStore(s, pool, p, k, b, read) == Some(Store(r, p, k, b))
  {
    CurrentMm(s, read);
    AccessKeeps(s, p, read);
    if Access(s, p, read).Some? {
      UserMappedMaps(Access(s, p, read).value, p);
      AccessInUserFrame(s, p, read);
    }
    SameTwoWays(s, pool, p, k, b, read);
  }

  lemma AccessInUserFrame(s: Sys, p: nat, read: Read)
    requires CanAccess(s, p, read)
    ensures CanStore(s, read)
    ensures var r := Access(s, p, read);
            r.Some? ==> UserMapped(r.value, p) && Translate(r.value, p).value >= KERNEL_FRAMES
  {
    CurrentMm(s, read);
    AccessKeeps(s, p, read);
    if Access(s, p, read).Some? {
      var r := Access(s, p, read).value;
      UserMappedMaps(r, p);
      MapsOwned(r.mach, r.tasks[r.cur.value].mm.value, p, Translate(r, p).value);
    }
  }

  /** The kernel's store and the task's differ in no step but the user bit, which such a page has. */
  lemma SameTwoWays(s: Sys, pool: nat, p: nat, k: nat, b: Byte, read: Read)
    requires CanAccess(s, p, read) && !KernelPage(p) && k < PAGE && PoolAt(pool) && CanStore(s, read)
    requires var r := Access(s, p, read);
             r.Some? ==> Shape(r.value.mach) && UserMapped(r.value, p)
                         && KERNEL_FRAMES <= Translate(r.value, p).value < FRAMES
    ensures match Access(s, p, read)
            case None => KernelStore(s, pool, p, k, b, read) == None
            case Some(r) => KernelStore(s, pool, p, k, b, read) == Some(Store(r, p, k, b))
  {
    CurrentMm(s, read);
    TranslateIsWalk(s, p);
    var m := s.tasks[s.cur.value].mm.value;
    UserPageWalk(s.mach, m, p);
    if Access(s, p, read).Some? && Translate(s, p) == None {
      FaultCaches(s.mach, m, p, read);
      var q := PageFault(s.mach, m, p, read).0;
      assert q.tlb[p := q.tlb[p]] == q.tlb;
    }
  }

  /** Into a kernel page it always succeeds, and lands in the kernel's memory. */
  lemma KernelStoreLands(s: Sys, pool: nat, p: nat, k: nat, b: Byte, read: Read)
    requires CanAccess(s, p, read) && KernelPage(p) && k < PAGE && PoolAt(pool)
    ensures CanStore(s, read) && Pti(p) < KERNEL_FRAMES
    ensures KernelStore(s, pool, p, k, b, read)
         == Some(s.(mach := PutByte(s.mach.(tlb := s.mach.tlb[p := Pti(p)]), pool, Pti(p), k, b)))
  {
    CurrentMm(s, read);
    KernelPageWalk(s, p);
  }

  // ----- a store into the kernel's bytes

  /** Where task u sees a byte that task t stores at page p: in its own page, or in all pages of the frame. */
  predicate Hits(t: nat, u: nat, p: nat, q: nat) {
    if KernelPage(p) then KernelPage(q) && Pti(q) == Pti(p) else u == t && q == p
  }

  /** r is s with byte b at offset k of page p, stored by task t. */
  ghost predicate Stored(s: Sys, r: Sys, t: nat, p: nat, k: nat, b: Byte) {
    && r.tasks == s.tasks && r.cur == s.cur
    && forall u: nat, q: nat, j: nat :: q < PAGES && j < PAGE ==>
         View(r, u, q, j) == if HasMm(s, u) && Hits(t, u, p, q) && j == k then Some(b) else View(s, u, q, j)
  }

  lemma KernelByteTlb(s: Machine, p: nat)
    requires Inv(s) && p < PAGES && Walk(s, s.cr3, p).Some?
    ensures Quiet(s, s.(tlb := s.tlb[p := Walk(s, s.cr3, p).value]))
  {
    var tlb := s.tlb[p := Walk(s, s.cr3, p).value];
    forall q | q in tlb ensures q < PAGES && Walk(s, s.cr3, q) == Some(tlb[q]) { assert TlbOk(s, q); }
    TlbQuiet(s, tlb);
  }

  lemma KernelByteKeeps(s: Machine, f: nat, k: nat, b: Byte)
    requires Inv(s) && f < KERNEL_FRAMES && k < PAGE
    ensures var r := StoreByte(s, f, k, b);
            && Inv(r) && r.mms == s.mms
            && (forall d, p :: Walk(r, d, p) == Walk(s, d, p))
            && (forall u :: u in s.mms && AreasOk(s, u) ==> AreasOk(r, u))
  {
    var r := StoreByte(s, f, k, b);
    SameOwnership(s, r);
    forall q ensures TlbOk(r, q) { assert TlbOk(s, q); }
    forall u | u in s.mms && AreasOk(s, u) ensures AreasOk(r, u) {
      assert forall p :: PdeOf(r, Pool(s.mms[u].pgd), Pdi(p)) == PdeOf(s, Pool(s.mms[u].pgd), Pdi(p));
    }
  }

  /** Only the kernel's pages are mapped to the kernel's frames. */
  lemma WalkIntoKernel(s: Machine, m: nat, q: nat)
    requires Inv(s) && m in s.mms && q < PAGES && Walk(s, Pool(s.mms[m].pgd), q).Some?
    ensures Walk(s, Pool(s.mms[m].pgd), q).value < KERNEL_FRAMES <==> KernelPage(q)
    ensures KernelPage(q) ==> Walk(s, Pool(s.mms[m].pgd), q) == Some(Pti(q))
  {
    assert MmOk(s, m) && KernelOk(s, s.mms[m].pgd, Pdi(q));
    if !KernelPage(q) {
      MapsOwned(s, m, q, Walk(s, Pool(s.mms[m].pgd), q).value);
    }
  }

  lemma KernelByteViews(s: Sys, p: nat, k: nat, b: Byte)
    requires SysInv(s) && s.cur.Some? && KernelPage(p) && p < PAGES && k < PAGE && Pti(p) < KERNEL_FRAMES
    ensures Stored(s, s.(mach := StoreByte(s.mach, Pti(p), k, b)), s.cur.value, p, k, b)
    ensures SysInv(s.(mach := StoreByte(s.mach, Pti(p), k, b)))
  {
    var f, r := Pti(p), s.(mach := StoreByte(s.mach, Pti(p), k, b));
    KernelByteKeeps(s.mach, f, k, b);
    forall u ensures TaskOk(r, u) { assert TaskOk(s, u); }
    forall m ensures HomeOk(r, m) { assert HomeOk(s, m); }
    forall u: nat, q: nat, j: nat | q < PAGES && j < PAGE
      ensures View(r, u, q, j) == if HasMm(s, u) && Hits(s.cur.value, u, p, q) && j == k then Some(b)
                                  else View(s, u, q, j)
    {
      if HasMm(s, u) {
        if KernelPage(q) { KernelPageWalk(s, q); }
        if Walk(s.mach, Pool(s.mach.mms[s.tasks[u].mm.value].pgd), q).Some? {
          WalkIntoKernel(s.mach, s.tasks[u].mm.value, q);
        }
      }
    }
  }

  // ----- a store into a page table

  lemma PokeWalks(s: Machine, t: nat, j: nat, e: Pte, m: nat, p: nat, f: nat)
    requires Shape(s) && t < TABLES && j < ENTRIES && m in s.mms
    ensures var r := Poke(s, t, j, e);
            PdeOf(s, Pool(s.mms[m].pgd), Pdi(p)) != UserTable(t) || Pti(p) != j ==>
                (Maps(r, m, p, f) <==> Maps(s, m, p, f))
    ensures var r := Poke(s, t, j, e);
            PdeOf(s, Pool(s.mms[m].pgd), Pdi(p)) == UserTable(t) && Pti(p) == j && p < PAGES ==>
                (Maps(r, m, p, f) <==> e == Page(f))
  {
  }

  /** A changed entry of a live table breaks the ownership of memory, whatever one then takes for the owners: with
      the entry as it was the invariant holds, with any other it fails. */
  lemma PokeBreaks(s: Machine, t: nat, j: nat, e: Pte, o: Owners)
    requires Inv(s) && TableUsed(s, t) && t < TABLES && j < ENTRIES && e != PteOf(s, t, j)
    ensures !Inv(Poke(s, t, j, e).(own := o))
  {
    var r := Poke(s, t, j, e).(own := o);
    if Inv(r) {
      var m, i := OwnedTable(s, t);
      var p := PageOf(i, j);
      PageOfSplit(i, j);
      if PteOf(s, t, j).Page? {
        PokedLoses(s, r, t, j, e, m, p, PteOf(s, t, j).frame);
      } else {
        PokedShares(s, r, t, j, m, p, e.frame);
      }
    }
  }

  /** The frame that the entry named is in use but mapped nowhere. */
  lemma PokedLoses(s: Machine, r: Machine, t: nat, j: nat, e: Pte, m: nat, p: nat, f: nat)
    requires Inv(s) && t < TABLES && j < ENTRIES && r == Poke(s, t, j, e).(own := r.own) && e != Page(f)
    requires UsesTable(s, m, Pdi(p), t) && Pti(p) == j && p < PAGES && PteOf(s, t, j) == Page(f)
    ensures !Inv(r)
  {
    assert Maps(s, m, p, f);
    MapsOwned(s, m, p, f);
    if Inv(r) {
      var u, q := OwnedMaps(r, f);
      PokeWalks(s, t, j, e, u, q, f);
      if PdeOf(s, Pool(s.mms[u].pgd), Pdi(q)) != UserTable(t) || Pti(q) != j {
        FramesHaveOneOwner(s);
      }
    }
  }

  /** The frame that the entry now names is not in use, the kernel's, or mapped twice. */
  lemma PokedShares(s: Machine, r: Machine, t: nat, j: nat, m: nat, p: nat, f: nat)
    requires Inv(s) && t < TABLES && j < ENTRIES && r == Poke(s, t, j, Page(f)).(own := r.own)
    requires UsesTable(s, m, Pdi(p), t) && Pti(p) == j && p < PAGES && PteOf(s, t, j) == NoPage
    ensures !Inv(r)
  {
    PokeWalks(s, t, j, Page(f), m, p, f);
    assert Maps(r, m, p, f);
    if Inv(r) {
      MapsOwned(r, m, p, f);
      var u, q := OwnedMaps(s, f);
      PokeWalks(s, t, j, Page(f), u, q, f);
      assert PdeOf(s, Pool(s.mms[u].pgd), Pdi(q)) != UserTable(t) || Pti(q) != j;
      assert Maps(r, u, q, f);
      FramesHaveOneOwner(r);
    }
  }

  /** A table that is not in use is anybody's: alloc_pt clears it before use. */
  lemma PokeUnused(s: Machine, t: nat, j: nat, e: Pte)
    requires Inv(s) && (forall m :: m in s.mms ==> AreasOk(s, m)) && t < TABLES && j < ENTRIES && !TableUsed(s, t)
    ensures Quiet(s, Poke(s, t, j, e))
  {
    var r := Poke(s, t, j, e);
    assert TableOk(s, t);
    forall x ensures DirOk(r, x) { assert DirOk(s, x); }
    forall x, i ensures KernelOk(r, x, i) { assert KernelOk(s, x, i); }
    forall m ensures MmOk(r, m) { assert MmOk(s, m); }
    forall u ensures TableOk(r, u) { assert TableOk(s, u); }
    forall x, i ensures EntryOk(r, x, i) { assert EntryOk(s, x, i); }
    forall f ensures FrameOk(r, f) { assert FrameOk(s, f); }
    forall u, i ensures MappingOk(r, u, i) { assert MappingOk(s, u, i); }
    forall d, p: nat | DirLive(s, d) ensures Walk(r, d, p) == Walk(s, d, p) {
      if d.Pool? { assert EntryOk(s, d.slot, Pdi(p)); }
    }
    forall p ensures TlbOk(r, p) { assert TlbOk(s, p); }
    forall u | u in s.mms ensures SameBytes(s, r, u) && AreasOk(r, u) {
      assert MmOk(s, u) && DirLive(s, Pool(s.mms[u].pgd)) && AreasOk(s, u);
      forall p: nat | p < PAGES && PdeOf(r, Pool(r.mms[u].pgd), Pdi(p)).UserTable?
          && Walk(r, Pool(r.mms[u].pgd), p).Some?
        ensures FindArea(r.mms[u].areas, p).Some?
      {
        assert Walk(s, Pool(s.mms[u].pgd), p) == Walk(r, Pool(r.mms[u].pgd), p);
      }
    }
  }

  /** The store changes an entry of a page table in use. */
  predicate Damages(s: Machine, pool: nat, p: nat, k: nat, b: Byte) {
    var t := Pti(p) - pool;
    KernelPage(p) && InPool(pool, Pti(p)) && TableUsed(s, t) && !Harmless(PteOf(s, t, k / 4), k % 4, b)
  }

  lemma PoolByteExact(s: Machine, pool: nat, f: nat, k: nat, b: Byte)
    requires Inv(s) && (forall m :: m in s.mms ==> AreasOk(s, m)) && PoolAt(pool) && InPool(pool, f) && k < PAGE
    ensures var r := PutByte(s, pool, f, k, b);
            if TableUsed(s, f - pool) && !Harmless(PteOf(s, f - pool, k / 4), k % 4, b) then
              forall o :: !Inv(r.(own := o))
            else Quiet(s, r)
  {
    var t, j := f - pool, k / 4;
    var e := BytesEntry(EntryBytes(PteOf(s, t, j))[k % 4 := b]);
    if TableUsed(s, t) {
      assert TableOk(s, t) && MappingOk(s, t, j);
      if PteOf(s, t, j).Page? { assert FrameOk(s, PteOf(s, t, j).frame); }
      HarmlessExact(PteOf(s, t, j), k % 4, b);
      if Harmless(PteOf(s, t, j), k % 4, b) {
        assert s.tables[t][j := e] == s.tables[t];
        assert s.tables[t := s.tables[t]] == s.tables;
        assert Poke(s, t, j, e) == s;
      } else {
        forall o ensures !Inv(Poke(s, t, j, e).(own := o)) { PokeBreaks(s, t, j, e, o); }
      }
    } else {
      PokeUnused(s, t, j, e);
    }
  }

  // ----- every store

  /** What a store that damages no page table does. */
  ghost predicate StoreOk(s: Sys, r: Sys, pool: nat, t: nat, p: nat, k: nat, b: Byte) {
    && SysInv(r) && r.cur == s.cur
    && if KernelPage(p) && InPool(pool, Pti(p)) then SameViews(s, r) else Stored(s, r, t, p, k, b)
  }

  lemma UserStoreOk(s: Sys, pool: nat, p: nat, k: nat, b: Byte, read: Read)
    requires CanAccess(s, p, read) && !KernelPage(p) && k < PAGE && PoolAt(pool)
    ensures CanStore(s, read)
    ensures var r := KernelStore(s, pool, p, k, b, read); r.Some? ==> StoreOk(s, r.value, pool, s.cur.value, p, k, b)
  {
    KernelStoreIsUserStore(s, pool, p, k, b, read);
    AccessKeeps(s, p, read);
    var a := Access(s, p, read);
    if a.Some? {
      StoreKeeps(a.value, p, k, b);
      AccessOwner(s, p, read);
    }
  }

  lemma AccessOwner(s: Sys, p: nat, read: Read)
    requires CanAccess(s, p, read)
    ensures HasMm(s, s.cur.value) && FaultReady(s.mach, s.tasks[s.cur.value].mm.value, read)
    ensures Access(s, p, read).Some? ==> Access(s, p, read).value.cur == s.cur
  {
    CurrentMm(s, read);
  }

  /** The exact effect of every kernel store: it damages a page table, and then nothing holds any more, whatever one
      takes for the owners of memory; or it changes the one byte, in the task's own page or in the kernel page
      that all tasks share. */
  lemma KernelStoreExact(s: Sys, pool: nat, p: nat, k: nat, b: Byte, read: Read)
    requires CanAccess(s, p, read) && k < PAGE && PoolAt(pool)
    ensures CanStore(s, read) && (KernelPage(p) ==> KernelStore(s, pool, p, k, b, read).Some?)
    ensures match KernelStore(s, pool, p, k, b, read)
            case None => true
            case Some(r) =>
              if Damages(s.mach, pool, p, k, b) then forall o :: !Inv(r.mach.(own := o))
              else StoreOk(s, r, pool, s.cur.value, p, k, b)
  {
    if !KernelPage(p) {
      UserStoreOk(s, pool, p, k, b, read);
    } else {
      KernelStoreLands(s, pool, p, k, b, read);
      CachedKernelPage(s, p);
      KernelByteExact(s, s.(mach := s.mach.(tlb := s.mach.tlb[p := Pti(p)])), pool, p, k, b);
    }
  }

  lemma CachedKernelPage(s: Sys, p: nat)
    requires SysInv(s) && KernelPage(p) && p < PAGES
    ensures var q := s.(mach := s.mach.(tlb := s.mach.tlb[p := Pti(p)])); SysInv(q) && SameViews(s, q)
  {
    KernelPageWalk(s, p);
    TranslateIsWalk(s, p);
    KernelByteTlb(s.mach, p);
    QuietStep(s, s.(mach := s.mach.(tlb := s.mach.tlb[p := Pti(p)])));
  }

  lemma KernelByteExact(s: Sys, q: Sys, pool: nat, p: nat, k: nat, b: Byte)
    requires SysInv(q) && SameViews(s, q) && s.cur.Some? && q.cur == s.cur && PoolAt(pool) && p < PAGES && k < PAGE
    requires q.mach.tables == s.mach.tables && q.mach.tableUse == s.mach.tableUse && q.mach.mms == s.mach.mms
    requires KernelPage(p) && Pti(p) < KERNEL_FRAMES
    ensures var r := q.(mach := PutByte(q.mach, pool, Pti(p), k, b));
            if Damages(s.mach, pool, p, k, b) then forall o :: !Inv(r.mach.(own := o))
            else StoreOk(s, r, pool, s.cur.value, p, k, b)
  {
    if InPool(pool, Pti(p)) {
      forall m | m in q.mach.mms ensures AreasOk(q.mach, m) { assert HomeOk(q, m); }
      PoolByteExact(q.mach, pool, Pti(p), k, b);
      if !Damages(s.mach, pool, p, k, b) {
        QuietStep(q, q.(mach := PutByte(q.mach, pool, Pti(p), k, b)));
      }
    } else {
      KernelByteViews(q, p, k, b);
    }
  }

  /** It keeps the guarantees exactly when it damages no page table in use. */
  lemma KernelStoreKeeps(s: Sys, pool: nat, p: nat, k: nat, b: Byte, read: Read)
    requires CanAccess(s, p, read) && k < PAGE && PoolAt(pool)
    ensures CanStore(s, read)
    ensures var r := KernelStore(s, pool, p, k, b, read);
            r.Some? ==> (SysInv(r.value) <==> !Damages(s.mach, pool, p, k, b))
  {
    KernelStoreExact(s, pool, p, k, b, read);
    var r := KernelStore(s, pool, p, k, b, read);
    if r.Some? {
      assert r.value.mach.(own := r.value.mach.own) == r.value.mach;
    }
  }

  /** Nobody but the current task has an address space. */
  ghost predicate Alone(s: Sys) {
    s.cur.Some? && forall u: nat :: HasMm(s, u) ==> u == s.cur.value
  }

  /** Outside the page tables it leaves what the others see exactly when it stays out of the kernel's pages, or stores
      what is there already, or there are no others. */
  lemma KernelStoreIsolates(s: Sys, pool: nat, p: nat, k: nat, b: Byte, read: Read)
    requires CanAccess(s, p, read) && k < PAGE && PoolAt(pool) && !(KernelPage(p) && InPool(pool, Pti(p)))
    ensures CanStore(s, read)
    ensures var r := KernelStore(s, pool, p, k, b, read);
            r.Some? ==> (OthersSame(s, r.value, s.cur.value) <==>
                         !KernelPage(p) || RamAt(s.mach, Pti(p), k) == Some(b) || Alone(s))
    ensures var r := KernelStore(s, pool, p, k, b, read);
            r.Some? && KernelPage(p) ==> forall u: nat :: HasMm(s, u) ==> View(r.value, u, p, k) == Some(b)
  {
    KernelStoreExact(s, pool, p, k, b, read);
    var r := KernelStore(s, pool, p, k, b, read);
    if r.Some? && KernelPage(p) {
      KernelPageWalk(s, p);
      forall u: nat, q: nat | HasMm(s, u) && KernelPage(q) && Pti(q) == Pti(p)
        ensures View(s, u, q, k) == RamAt(s.mach, Pti(p), k)
      {
        KernelPageWalk(s, q);
      }
    }
  }
}
