/** sys_read stores through the pointer it is given, in kernel mode. With a buffer in user pages that is a run of
    the task's own accesses and stores; through a kernel address it stores into memory that all tasks share, the
    page tables among it. */
module SystemCalls {
  import opened Words
  import opened Vm
  import opened VmProofs
  import opened Elf
  import opened Loading
  import opened System
  import opened SystemProofs
  import opened KernelStores
  import opened SystemRuns

  /** The address of byte i of the buffer, in 32 bits. */
  function Address(buf: nat, i: nat): (a: nat)
    ensures a / PAGE < PAGES
  {
    (buf + i) % WORD
  }

  /** Store i of sys_read: the next byte that the terminal delivers, at the next address. */
  ghost predicate StoreAt(hs: seq<Sys>, pool: nat, buf: nat, data: seq<Byte>, ends: seq<Read>, i: nat)
    requires PoolAt(pool) && i < |data| == |ends| < |hs|
  {
    var a := Address(buf, i);
    CanStore(hs[i], ends[i])
    && KernelStore(hs[i], pool, a / PAGE, a % PAGE, data[i], ends[i]) == Some(hs[i + 1])
  }

  /** The history of a sys_read that returns: from any descriptor but 0 nothing happens; from 0 the delivered bytes
      are stored one by one. */
  ghost predicate ReadHistory(hs: seq<Sys>, pool: nat, fd: nat, buf: nat, data: seq<Byte>, ends: seq<Read>) {
    && PoolAt(pool) && |hs| == |data| + 1 && |ends| == |data| && (fd != 0 ==> data == [])
    && forall i :: 0 <= i < |data| ==> StoreAt(hs, pool, buf, data, ends, i)
  }

  predicate ReadsOk(ends: seq<Read>) {
    forall i :: 0 <= i < |ends| ==> ends[i].ReadFailed? ==> |ends[i].left| == PAGE
  }

  /** A sys_read by task t from a state in order. */
  ghost predicate ReadBy(t: nat, hs: seq<Sys>, pool: nat, fd: nat, buf: nat, data: seq<Byte>, ends: seq<Read>) {
    ReadHistory(hs, pool, fd, buf, data, ends) && SysInv(hs[0]) && hs[0].cur == Some(t) && ReadsOk(ends)
  }

  // ----- any buffer

  /** Store i of the read changes an entry of a page table in use. */
  predicate DamagesAt(hs: seq<Sys>, pool: nat, buf: nat, data: seq<Byte>, i: nat)
    requires i < |data| && i < |hs|
  {
    Damages(hs[i].mach, pool, Address(buf, i) / PAGE, Address(buf, i) % PAGE, data[i])
  }

  /** The first n stores damage no page table. */
  predicate Spared(hs: seq<Sys>, pool: nat, buf: nat, data: seq<Byte>, n: nat)
    requires n <= |data| <= |hs|
  {
    forall i :: 0 <= i < n ==> !DamagesAt(hs, pool, buf, data, i)
  }

  /** The stores of a read as steps of a run. */
  function ReadSteps(pool: nat, buf: nat, data: seq<Byte>, ends: seq<Read>, n: nat): (sts: seq<Step>)
    requires n <= |data| == |ends|
    ensures |sts| == n
    ensures forall i :: 0 <= i < n ==>
              sts[i] == KernelWrite(pool, Address(buf, i) / PAGE, Address(buf, i) % PAGE, data[i], ends[i])
  {
    if n == 0 then [] else
      var a := Address(buf, n - 1);
      ReadSteps(pool, buf, data, ends, n - 1) + [KernelWrite(pool, a / PAGE, a % PAGE, data[n - 1], ends[n - 1])]
  }

  /** As long as it damages no page table, a sys_read is a run, so every guarantee about runs holds of it. */
  lemma ReadIsRun(t: nat, hs: seq<Sys>, pool: nat, fd: nat, buf: nat, data: seq<Byte>, ends: seq<Read>, n: nat)
    requires ReadBy(t, hs, pool, fd, buf, data, ends) && n <= |data| && Spared(hs, pool, buf, data, n)
    ensures Run(hs[..n + 1], ReadSteps(pool, buf, data, ends, n)) && SysInv(hs[n])
  {
    var ss, sts := hs[..n + 1], ReadSteps(pool, buf, data, ends, n);
    forall i | 0 <= i < n ensures SystemRuns.StepAt(ss, sts, i) {
      assert StoreAt(hs, pool, buf, data, ends, i) && !DamagesAt(hs, pool, buf, data, i);
    }
    RunKeepsInv(ss, sts, n);
  }

  /** The first damaging store ends all guarantees. */
  lemma DamageBreaks(t: nat, hs: seq<Sys>, pool: nat, fd: nat, buf: nat, data: seq<Byte>, ends: seq<Read>, n: nat)
    requires ReadBy(t, hs, pool, fd, buf, data, ends) && n < |data| && Spared(hs, pool, buf, data, n)
    ensures DamagesAt(hs, pool, buf, data, n) ==> !SysInv(hs[n + 1])
  {
    ReadIsRun(t, hs, pool, fd, buf, data, ends, n);
    SameCurrent(t, hs, pool, fd, buf, data, ends, n);
    assert StoreAt(hs, pool, buf, data, ends, n);
    KernelStoreKeeps(hs[n], pool, Address(buf, n) / PAGE, Address(buf, n) % PAGE, data[n], ends[n]);
  }

  lemma {:induction false} SameCurrent(t: nat, hs: seq<Sys>, pool: nat, fd: nat, buf: nat, data: seq<Byte>,
                                       ends: seq<Read>, n: nat)
    requires ReadBy(t, hs, pool, fd, buf, data, ends) && n <= |data|
    ensures hs[n].cur == Some(t) && hs[n].tasks == hs[0].tasks
  {
    if n > 0 {
      SameCurrent(t, hs, pool, fd, buf, data, ends, n - 1);
      assert StoreAt(hs, pool, buf, data, ends, n - 1);
    }
  }

  /** A sys_read keeps the guarantees all the way exactly when none of its stores changes an entry of a page table
      in use. */
  lemma ReadKeeps(t: nat, hs: seq<Sys>, pool: nat, fd: nat, buf: nat, data: seq<Byte>, ends: seq<Read>)
    requires ReadBy(t, hs, pool, fd, buf, data, ends)
    ensures (forall i :: 0 <= i <= |data| ==> SysInv(hs[i])) <==> Spared(hs, pool, buf, data, |data|)
  {
    if Spared(hs, pool, buf, data, |data|) {
      forall i | 0 <= i <= |data| ensures SysInv(hs[i]) { ReadIsRun(t, hs, pool, fd, buf, data, ends, i); }
    } else {
      var n := FirstDamage(hs, pool, buf, data, 0);
      DamageBreaks(t, hs, pool, fd, buf, data, ends, n);
    }
  }

  lemma FirstDamage(hs: seq<Sys>, pool: nat, buf: nat, data: seq<Byte>, i: nat) returns (n: nat)
    requires i <= |data| <= |hs| && Spared(hs, pool, buf, data, i) && !Spared(hs, pool, buf, data, |data|)
    ensures n < |data| && Spared(hs, pool, buf, data, n) && DamagesAt(hs, pool, buf, data, n)
    decreases |data| - i
  {
    if DamagesAt(hs, pool, buf, data, i) {
      n := i;
    } else {
      n := FirstDamage(hs, pool, buf, data, i + 1);
    }
  }

  /** The byte that the read leaves at offset j of page q of task u, if it stores there: the last one stored. */
  function Written(pool: nat, buf: nat, data: seq<Byte>, t: nat, u: nat, q: nat, j: nat): Option<Byte>
    decreases |data|
  {
    if data == [] then None
    else
      var n := |data| - 1;
      var p := Address(buf, n) / PAGE;
      if Hits(t, u, p, q) && Address(buf, n) % PAGE == j && !(KernelPage(p) && InPool(pool, Pti(p))) then Some(data[n])
      else Written(pool, buf, data[..n], t, u, q, j)
  }

  /** r is s after the data has been stored. */
  ghost predicate Delivered(s: Sys, r: Sys, pool: nat, t: nat, buf: nat, data: seq<Byte>) {
    forall u: nat, q: nat, j: nat :: q < PAGES && j < PAGE ==>
      var w := Written(pool, buf, data, t, u, q, j);
      View(r, u, q, j) == if HasMm(s, u) && w.Some? then w else View(s, u, q, j)
  }

  lemma DeliveredStep(s: Sys, q: Sys, r: Sys, pool: nat, t: nat, buf: nat, data: seq<Byte>, b: Byte)
    requires Delivered(s, q, pool, t, buf, data) && (forall u :: HasMm(q, u) <==> HasMm(s, u))
    requires StoreOk(q, r, pool, t, Address(buf, |data|) / PAGE, Address(buf, |data|) % PAGE, b)
    ensures Delivered(s, r, pool, t, buf, data + [b])
  {
    assert (data + [b])[..|data|] == data;
  }

  lemma StillHasMm(s: Sys, u: nat)
    requires SysInv(s)
    ensures HasMm(s, u) <==> u in s.tasks && s.tasks[u].mm.Some?
  {
    assert TaskOk(s, u);
  }

  /** What a sys_read does, for every buffer: each byte that some task sees is the last one stored there, or as
      before. */
  lemma {:induction false} ReadDelivers(t: nat, hs: seq<Sys>, pool: nat, fd: nat, buf: nat, data: seq<Byte>,
                                        ends: seq<Read>, n: nat)
    requires ReadBy(t, hs, pool, fd, buf, data, ends) && n <= |data| && Spared(hs, pool, buf, data, n)
    ensures Delivered(hs[0], hs[n], pool, t, buf, data[..n]) && hs[n].tasks == hs[0].tasks
  {
    if n > 0 {
      var i := n - 1;
      ReadDelivers(t, hs, pool, fd, buf, data, ends, i);
      ReadIsRun(t, hs, pool, fd, buf, data, ends, i);
      SameCurrent(t, hs, pool, fd, buf, data, ends, i);
      SameCurrent(t, hs, pool, fd, buf, data, ends, n);
      assert StoreAt(hs, pool, buf, data, ends, i) && !DamagesAt(hs, pool, buf, data, i);
      KernelStoreExact(hs[i], pool, Address(buf, i) / PAGE, Address(buf, i) % PAGE, data[i], ends[i]);
      forall u ensures HasMm(hs[i], u) <==> HasMm(hs[0], u) { StillHasMm(hs[i], u); StillHasMm(hs[0], u); }
      DeliveredStep(hs[0], hs[i], hs[n], pool, t, buf, data[..i], data[i]);
      assert data[..i] + [data[i]] == data[..n];
    }
  }

  /** Every byte that the read leaves in the kernel's memory was there before. */
  predicate KernelAsBefore(s: Sys, pool: nat, t: nat, buf: nat, data: seq<Byte>) {
    forall f: nat, k: nat :: f < KERNEL_FRAMES && k < PAGE ==>
      var w := Written(pool, buf, data, t, t, f, k); w.Some? ==> RamAt(s.mach, f, k) == w
  }

  lemma WrittenInKernel(pool: nat, buf: nat, data: seq<Byte>, t: nat, u: nat, q: nat, j: nat)
    requires q < PAGES && u != t
    ensures Written(pool, buf, data, t, u, q, j)
         == if KernelPage(q) then Written(pool, buf, data, t, t, Pti(q), j) else None
    decreases |data|
  {
    if data != [] {
      WrittenInKernel(pool, buf, data[..|data| - 1], t, u, q, j);
    }
  }

  /** A sys_read leaves what the others see exactly when all that it leaves in kernel memory was there before, or
      there are no others. */
  lemma ReadIsolates(t: nat, hs: seq<Sys>, pool: nat, fd: nat, buf: nat, data: seq<Byte>, ends: seq<Read>)
    requires ReadBy(t, hs, pool, fd, buf, data, ends) && Spared(hs, pool, buf, data, |data|)
    ensures OthersSame(hs[0], hs[|data|], t) <==> KernelAsBefore(hs[0], pool, t, buf, data) || Alone(hs[0])
  {
    var s, r := hs[0], hs[|data|];
    assert data[..|data|] == data;
    ReadDelivers(t, hs, pool, fd, buf, data, ends, |data|);
    if KernelAsBefore(s, pool, t, buf, data) || Alone(s) {
      forall u: nat, q: nat, k: nat | u != t && q < PAGES && k < PAGE ensures View(r, u, q, k) == View(s, u, q, k) {
        WrittenInKernel(pool, buf, data, t, u, q, k);
        if HasMm(s, u) && KernelPage(q) { KernelPageWalk(s, q); }
      }
    }
    if OthersSame(s, r, t) && !Alone(s) {
      var u: nat :| HasMm(s, u) && u != t;
      forall f: nat, k: nat | f < KERNEL_FRAMES && k < PAGE && Written(pool, buf, data, t, t, f, k).Some?
        ensures RamAt(s.mach, f, k) == Written(pool, buf, data, t, t, f, k)
      {
        assert KernelPage(f) && Pti(f) == f;
        KernelPageWalk(s, f);
        WrittenInKernel(pool, buf, data, t, u, f, k);
        assert View(r, u, f, k) == View(s, u, f, k);
      }
    }
  }

  // ----- kernel addresses

  lemma AddressSplit(p: nat, k: nat)
    requires p < PAGES && k < PAGE
    ensures var a := Address(p * PAGE + k, 0); a == p * PAGE + k && a / PAGE == p && a % PAGE == k
  {
  }

  lemma OneStoreHistory(s: Sys, r: Sys, pool: nat, p: nat, k: nat, b: Byte)
    requires CanStore(s, ReadOk) && PoolAt(pool) && p < PAGES && k < PAGE
    requires KernelStore(s, pool, p, k, b, ReadOk) == Some(r)
    ensures ReadHistory([s, r], pool, 0, p * PAGE + k, [b], [ReadOk])
  {
    AddressSplit(p, k);
    assert StoreAt([s, r], pool, p * PAGE + k, [b], [ReadOk], 0);
  }

  /** Reading one character to a kernel address. */
  lemma OneCharacter(s: Sys, pool: nat, p: nat, k: nat, b: Byte) returns (r: Sys)
    requires SysInv(s) && s.cur.Some? && PoolAt(pool) && p < PAGES && k < PAGE && KernelPage(p)
    ensures CanStore(s, ReadOk) && KernelStore(s, pool, p, k, b, ReadOk) == Some(r)
    ensures ReadHistory([s, r], pool, 0, p * PAGE + k, [b], [ReadOk])
    ensures Pti(p) < FRAMES && r.mach.tables == PutByte(s.mach, pool, Pti(p), k, b).tables
  {
    KernelStoreLands(s, pool, p, k, b, ReadOk);
    r := KernelStore(s, pool, p, k, b, ReadOk).value;
    OneStoreHistory(s, r, pool, p, k, b);
  }

  lemma KernelByteShown(s: Sys, r: Sys, pool: nat, p: nat, k: nat, b: Byte, u: nat)
    requires CanAccess(s, p, ReadOk) && k < PAGE && PoolAt(pool) && KernelPage(p) && !InPool(pool, Pti(p))
    requires CanStore(s, ReadOk) && KernelStore(s, pool, p, k, b, ReadOk) == Some(r)
    requires HasMm(s, u) && RamAt(s.mach, Pti(p), k) != Some(b)
    ensures SysInv(r) && View(r, u, p, k) == Some(b) && View(s, u, p, k) != Some(b)
  {
    KernelStoreExact(s, pool, p, k, b, ReadOk);
    KernelPageWalk(s, p);
  }

  /** One character read to address 0xc0000000: afterwards every task finds it there. */
  lemma ReadIntoKernel(s: Sys, t: nat, u: nat, pool: nat, b: Byte) returns (r: Sys)
    requires SysInv(s) && s.cur == Some(t) && HasMm(s, u) && u != t
    requires PoolAt(pool) && pool > 0 && RamAt(s.mach, 0, 0) != Some(b)
    ensures ReadHistory([s, r], pool, 0, 0xc000_0000, [b], [ReadOk])
    ensures SysInv(r) && View(r, u, 0xc0000, 0) == Some(b) && !OthersSame(s, r, t)
  {
    r := OneCharacter(s, pool, 0xc0000, 0, b);
    KernelByteShown(s, r, pool, 0xc0000, 0, b, u);
  }

  lemma TablePage(pool: nat, i: nat)
    requires PoolAt(pool) && i < TABLES
    ensures var p := 0xc0000 + pool + i;
            p < PAGES && KernelPage(p) && Pti(p) == pool + i && p * PAGE == 0xc000_0000 + (pool + i) * PAGE
  {
  }

  lemma TableByteGone(s: Machine, pool: nat, i: nat, j: nat, b: Byte)
    requires Shape(s) && PoolAt(pool) && i < TABLES && j < ENTRIES && PteOf(s, i, j).Page? && b % 2 == 0
    ensures PteOf(PutByte(s, pool, pool + i, 4 * j, b), i, j) == NoPage
    ensures TableUsed(s, i) ==> Damages(s, pool, 0xc0000 + pool + i, 4 * j, b)
  {
  }

  lemma DamageEnds(s: Sys, r: Sys, pool: nat, p: nat, k: nat, b: Byte)
    requires CanAccess(s, p, ReadOk) && k < PAGE && PoolAt(pool) && Damages(s.mach, pool, p, k, b)
    requires CanStore(s, ReadOk) && KernelStore(s, pool, p, k, b, ReadOk) == Some(r)
    ensures !SysInv(r)
  {
    KernelStoreKeeps(s, pool, p, k, b, ReadOk);
  }

  /** One character with an even code read to the first byte of a present entry of a page table: the page is gone,
      and the guarantees with it. */
  lemma ReadIntoTable(s: Sys, t: nat, pool: nat, i: nat, j: nat, b: Byte) returns (r: Sys)
    requires SysInv(s) && s.cur == Some(t) && PoolAt(pool)
    requires i < TABLES && TableUsed(s.mach, i) && j < ENTRIES && PteOf(s.mach, i, j).Page? && b % 2 == 0
    ensures ReadHistory([s, r], pool, 0, 0xc000_0000 + (pool + i) * PAGE + 4 * j, [b], [ReadOk])
    ensures !SysInv(r) && PteOf(r.mach, i, j) == NoPage
  {
    var p := 0xc0000 + pool + i;
    TablePage(pool, i);
    r := OneCharacter(s, pool, p, 4 * j, b);
    TableByteGone(s.mach, pool, i, j, b);
    DamageEnds(s, r, pool, p, 4 * j, b);
  }

  // ----- user buffers

  predicate UserBuffer(buf: nat, n: nat) {
    0x40_0000 <= buf && buf + n <= 0xc000_0000
  }

  lemma UserBufferPages(buf: nat, n: nat)
    requires UserBuffer(buf, n + 1)
    ensures Address(buf, n) == buf + n && UserPage((buf + n) / PAGE) && !KernelPage((buf + n) / PAGE)
  {
  }

  /** Byte a of the task's memory. */
  function ViewAt(s: Sys, t: nat, a: nat): Option<Byte> {
    View(s, t, a / PAGE, a % PAGE)
  }

  /** r is s with the data in the buffer of task t. */
  ghost predicate Filled(s: Sys, r: Sys, t: nat, buf: nat, data: seq<Byte>) {
    && r.tasks == s.tasks && r.cur == s.cur
    && forall u: nat, a: nat :: a < WORD ==>
         ViewAt(r, u, a) == if u == t && buf <= a < buf + |data| then Some(data[a - buf]) else ViewAt(s, u, a)
  }

  lemma StoreFills(s: Sys, q: Sys, r: Sys, t: nat, buf: nat, data: seq<Byte>, b: Byte)
    requires Filled(s, q, t, buf, data) && UserBuffer(buf, |data| + 1) && r.tasks == q.tasks && r.cur == q.cur
    requires forall u: nat, p: nat, k: nat :: p < PAGES && k < PAGE ==>
               View(r, u, p, k) == if u == t && p == (buf + |data|) / PAGE && k == (buf + |data|) % PAGE then Some(b)
                                   else View(q, u, p, k)
    ensures Filled(s, r, t, buf, data + [b])
  {
    forall u: nat, a: nat | a < WORD
      ensures ViewAt(r, u, a) == if u == t && buf <= a < buf + |data| + 1 then Some((data + [b])[a - buf])
                                 else ViewAt(s, u, a)
    {
      assert a / PAGE < PAGES;
      assert a == a / PAGE * PAGE + a % PAGE;
      assert buf + |data| == (buf + |data|) / PAGE * PAGE + (buf + |data|) % PAGE;
      assert ViewAt(q, u, a) == View(q, u, a / PAGE, a % PAGE);
    }
  }

  /** The run of the task's own steps that a read into a user buffer is. */
  ghost predicate OwnRun(ss: seq<Sys>, sts: seq<Step>, s: Sys, r: Sys) {
    && Run(ss, sts) && ss[0] == s && ss[|sts|] == r
    && forall i :: 0 <= i < |sts| ==> sts[i].Touch? || sts[i].Write?
  }

  lemma RunExtends(ss: seq<Sys>, sts: seq<Step>, s: Sys, q: Sys, st: Step, r: Sys)
    requires OwnRun(ss, sts, s, q) && StepTo(q, st, r) && (st.Touch? || st.Write?)
    ensures OwnRun(ss + [r], sts + [st], s, r)
  {
    var ns, nts := ss + [r], sts + [st];
    forall i | 0 <= i < |nts| ensures StepAt(ns, nts, i) {
      if i < |sts| {
        assert StepAt(ss, sts, i);
      }
    }
  }

  /** sys_read into a buffer in user pages, however the page faults on it go: it is a run of accesses and stores
      of the task itself, so every guarantee about runs holds of it, and exactly the buffer has changed, to exactly
      the delivered bytes. */
  lemma {:induction false} ReadIsOwnRun(hs: seq<Sys>, t: nat, pool: nat, fd: nat, buf: nat, data: seq<Byte>,
                                        ends: seq<Read>, n: nat)
    returns (ss: seq<Sys>, sts: seq<Step>)
    requires ReadBy(t, hs, pool, fd, buf, data, ends)
    requires UserBuffer(buf, |data|) && n <= |data|
    ensures OwnRun(ss, sts, hs[0], hs[n]) && SysInv(hs[n]) && Filled(hs[0], hs[n], t, buf, data[..n])
    decreases n
  {
    if n == 0 {
      ss, sts := [hs[0]], [];
    } else {
      var i := n - 1;
      ss, sts := ReadIsOwnRun(hs, t, pool, fd, buf, data, ends, i);
      assert StoreAt(hs, pool, buf, data, ends, i);
      UserBufferPages(buf, i);
      ss, sts := OneStored(hs[0], t, pool, buf, data[..i], data[i], ends[i], hs[i], ss, sts);
      assert data[..i] + [data[i]] == data[..n];
    }
  }

  lemma OneStored(s: Sys, t: nat, pool: nat, buf: nat, data: seq<Byte>, b: Byte, read: Read, q: Sys, ss: seq<Sys>,
                  sts: seq<Step>)
    returns (ns: seq<Sys>, nts: seq<Step>)
    requires OwnRun(ss, sts, s, q) && SysInv(q) && Filled(s, q, t, buf, data) && s.cur == Some(t)
    requires PoolAt(pool) && UserBuffer(buf, |data| + 1) && (read.ReadFailed? ==> |read.left| == PAGE)
    ensures CanStore(q, read) && (buf + |data|) / PAGE < PAGES
    ensures var r := KernelStore(q, pool, (buf + |data|) / PAGE, (buf + |data|) % PAGE, b, read);
            r.Some? ==> OwnRun(ns, nts, s, r.value) && SysInv(r.value) && Filled(s, r.value, t, buf, data + [b])
  {
    ns, nts := ss, sts;
    UserBufferPages(buf, |data|);
    var p, k := (buf + |data|) / PAGE, (buf + |data|) % PAGE;
    CurrentMm(q, read);
    KernelStoreIsUserStore(q, pool, p, k, b, read);
    var e := Access(q, p, read);
    if e.Some? {
      AccessKeeps(q, p, read);
      RunExtends(ss, sts, s, q, Touch(p, read), e.value);
      StoreKeeps(e.value, p, k, b);
      var r := Store(e.value, p, k, b);
      RunExtends(ss + [e.value], sts + [Touch(p, read)], s, e.value, Write(p, k, b), r);
      ns, nts := ss + [e.value] + [r], sts + [Touch(p, read)] + [Write(p, k, b)];
      StoreFills(s, q, r, t, buf, data, b);
    }
  }
}
