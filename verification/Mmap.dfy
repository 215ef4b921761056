/** The sorted list of virtual memory areas of one address space. */
module MmapSpec {
  import opened Words
  import opened Vm

  function AlignDown(a: nat): nat { a / PAGE * PAGE }

  /** Rounding up in 32-bit arithmetic. */
  function AlignUp(a: nat): nat { (a + PAGE - 1) % WORD / PAGE * PAGE }

  predicate WellFormed(v: Area) {
    v.start < v.end && v.start % PAGE == 0 && v.end % PAGE == 0
  }

  predicate Overlap(a: Area, b: Area) {
    a.start < b.end && b.start < a.end
  }

  predicate Before(vs: seq<Area>, i: nat, j: nat)
    requires i < |vs| && j < |vs|
  {
    vs[i].end <= vs[j].start
  }

  /** Page-aligned, non-empty, strictly sorted and pairwise disjoint areas. */
  predicate Sorted(vs: seq<Area>) {
    && (forall i :: 0 <= i < |vs| ==> WellFormed(vs[i]))
    && (forall i, j :: 0 <= i < j < |vs| ==> Before(vs, i, j))
  }

  /** The file offset falls before the start of the file once moved to the page boundary. */
  predicate BadOffset(addr: nat, file: Option<File>, offset: nat) {
    file.Some? && offset < addr - AlignDown(addr)
  }

  function NewArea(addr: nat, length: nat, file: Option<File>, offset: nat): Area
    requires !BadOffset(addr, file, offset)
  {
    var start := AlignDown(addr);
    Area(start, AlignUp((addr + length) % WORD), if file.Some? then offset - (addr - start) else 0, file)
  }

  lemma NewAreaCovers(addr: nat, length: nat, file: Option<File>, offset: nat)
    requires !BadOffset(addr, file, offset) && length > 0 && addr + length + PAGE <= WORD
    ensures var v := NewArea(addr, length, file, offset);
            WellFormed(v) && v.start <= addr < v.start + PAGE && addr + length <= v.end < addr + length + PAGE
  {
  }

  /** The first position whose area does not start below `start`. */
  function Position(vs: seq<Area>, start: nat): (i: nat)
    ensures i <= |vs|
    ensures forall k :: 0 <= k < i ==> vs[k].start < start
    ensures i < |vs| ==> vs[i].start >= start
  {
    if vs == [] || vs[0].start >= start then 0 else 1 + Position(vs[1..], start)
  }

  /** The list with the new area at its place, unless a neighbour is in the way. */
  function Insert(vs: seq<Area>, a: Area): Option<seq<Area>> {
    var i := Position(vs, a.start);
    if (i > 0 && vs[i - 1].end > a.start) || (i < |vs| && a.end > vs[i].start) then None
    else Some(vs[..i] + [a] + vs[i..])
  }

  function Mmap(vs: seq<Area>, addr: nat, length: nat, file: Option<File>, offset: nat): Option<seq<Area>> {
    if BadOffset(addr, file, offset) then None else Insert(vs, NewArea(addr, length, file, offset))
  }

  /** Testing the two neighbours is enough: the request is refused exactly when it overlaps some area. */
  lemma InsertComplete(vs: seq<Area>, a: Area)
    requires Sorted(vs) && WellFormed(a)
    ensures Insert(vs, a) == None <==> exists v :: v in vs && Overlap(v, a)
  {
    var i := Position(vs, a.start);
    if i > 0 { assert WellFormed(vs[i - 1]) && vs[i - 1] in vs; }
    if i < |vs| { assert WellFormed(vs[i]) && vs[i] in vs; }
    forall k | 0 <= k < |vs| && Overlap(vs[k], a)
      ensures (i > 0 && vs[i - 1].end > a.start) || (i < |vs| && a.end > vs[i].start)
    {
      assert k < i - 1 ==> Before(vs, k, i - 1);
      assert i < k ==> Before(vs, i, k) && WellFormed(vs[i]);
      assert i > 0 ==> WellFormed(vs[i - 1]);
    }
  }

  lemma InsertKeeps(vs: seq<Area>, a: Area)
    requires Sorted(vs) && WellFormed(a) && Insert(vs, a).Some?
    ensures var r := Insert(vs, a).value; Sorted(r) && forall v :: v in r <==> v in vs || v == a
  {
    var i := Position(vs, a.start);
    var r := Insert(vs, a).value;
    assert vs == vs[..i] + vs[i..];
    forall k | 0 <= k < |r| ensures WellFormed(r[k]) {
      assert k < i ==> WellFormed(vs[k]);
      assert k > i ==> WellFormed(vs[k - 1]);
    }
    forall k, j | 0 <= k < j < |r| ensures Before(r, k, j) {
      InsertOrdered(vs, a, k, j);
    }
  }

  lemma InsertOrdered(vs: seq<Area>, a: Area, k: nat, j: nat)
    requires Sorted(vs) && WellFormed(a) && Insert(vs, a).Some? && k < j <= |vs|
    ensures Before(Insert(vs, a).value, k, j)
  {
    var i := Position(vs, a.start);
    if j < i {
      assert Before(vs, k, j);
    } else if k > i {
      assert Before(vs, k - 1, j - 1);
    } else if k < i < j {
      assert Before(vs, k, j - 1);
    } else if j == i {
      assert k < i - 1 ==> Before(vs, k, i - 1);
      assert WellFormed(vs[i - 1]);
    } else {
      assert i < j - 1 ==> Before(vs, i, j - 1);
      assert WellFormed(vs[i]);
    }
  }

  datatype Request = Request(addr: nat, length: nat, file: Option<File>, offset: nat)

  /** A positive length that does not wrap around the end of memory. */
  predicate Sound(q: Request) {
    q.length > 0 && q.addr + q.length + PAGE <= WORD
  }

  /** A run of do_mmap calls, each accepted or refused. */
  function MmapAll(vs: seq<Area>, qs: seq<Request>): seq<Area> {
    if qs == [] then vs
    else
      var before := MmapAll(vs, qs[..|qs| - 1]);
      var q := qs[|qs| - 1];
      var r := Mmap(before, q.addr, q.length, q.file, q.offset);
      if r.Some? then r.value else before
  }

  /** Every run of sound requests keeps the list aligned, sorted and disjoint. */
  lemma {:induction false} RunKeepsSorted(vs: seq<Area>, qs: seq<Request>)
    requires Sorted(vs) && forall i :: 0 <= i < |qs| ==> Sound(qs[i])
    ensures Sorted(MmapAll(vs, qs))
    decreases |qs|
  {
    if qs != [] {
      var before, q := MmapAll(vs, qs[..|qs| - 1]), qs[|qs| - 1];
      RunKeepsSorted(vs, qs[..|qs| - 1]);
      if Mmap(before, q.addr, q.length, q.file, q.offset).Some? {
        NewAreaCovers(q.addr, q.length, q.file, q.offset);
        InsertKeeps(before, NewArea(q.addr, q.length, q.file, q.offset));
      }
    }
  }

  /** find_vma by address. */
  function FindVma(vs: seq<Area>, addr: nat): Option<Area> {
    if vs == [] then None else if vs[0].start <= addr < vs[0].end then Some(vs[0]) else FindVma(vs[1..], addr)
  }

  /** On a sorted list the search finds the one area that covers the address, if there is one. */
  lemma {:induction false} FindVmaComplete(vs: seq<Area>, addr: nat)
    requires Sorted(vs)
    ensures forall v :: FindVma(vs, addr) == Some(v) <==> v in vs && v.start <= addr < v.end
    decreases vs
  {
    if vs != [] {
      var tail := vs[1..];
      forall i | 0 <= i < |tail| ensures WellFormed(tail[i]) { assert WellFormed(vs[i + 1]); }
      forall i, j | 0 <= i < j < |tail| ensures Before(tail, i, j) { assert Before(vs, i + 1, j + 1); }
      FindVmaComplete(tail, addr);
      assert vs == [vs[0]] + tail;
      forall v | v in tail ensures vs[0].end <= v.start {
        var j :| 0 <= j < |tail| && tail[j] == v;
        assert Before(vs, 0, j + 1);
      }
    }
  }

  /** Areas are made of whole pages, so an address and its page are covered alike. */
  lemma {:induction false} FindByPage(vs: seq<Area>, addr: nat)
    requires Sorted(vs)
    ensures FindVma(vs, addr) == FindArea(vs, addr / PAGE)
    decreases vs
  {
    if vs != [] {
      var tail := vs[1..];
      forall i | 0 <= i < |tail| ensures WellFormed(tail[i]) { assert WellFormed(vs[i + 1]); }
      forall i, j | 0 <= i < j < |tail| ensures Before(tail, i, j) { assert Before(vs, i + 1, j + 1); }
      assert WellFormed(vs[0]);
      WholePages(vs[0], addr);
      FindByPage(tail, addr);
    }
  }

  /** On a sorted list the search by page finds the one area that covers the page, if there is one. */
  lemma FindAreaComplete(vs: seq<Area>, p: nat)
    requires Sorted(vs)
    ensures forall v :: FindArea(vs, p) == Some(v) <==> v in vs && v.Covers(p)
  {
    FindByPage(vs, p * PAGE);
    FindVmaComplete(vs, p * PAGE);
  }

  lemma WholePages(v: Area, addr: nat)
    requires WellFormed(v)
    ensures v.start <= addr < v.end <==> v.Covers(addr / PAGE)
  {
    var a, b := v.start / PAGE, v.end / PAGE;
    assert v.start == a * PAGE && v.end == b * PAGE;
  }
}

/** The area list as the kernel keeps it: structs in memory, doubly linked by address. */
module Mmap {
  import opened Words
  import opened Vm
  import opened MmapSpec

  datatype Vma = Vma(area: Area, prev: Ptr, next: Ptr)

  function PtrAt(list: seq<nat>, i: int): Ptr {
    if 0 <= i < |list| then Some(list[i]) else None
  }

  ghost predicate NodeAt(list: seq<nat>, m: map<nat, Vma>, i: nat)
    requires i < |list|
  {
    list[i] in m && m[list[i]].prev == PtrAt(list, i - 1) && m[list[i]].next == PtrAt(list, i + 1)
  }

  /** list is the doubly linked list that starts at head. */
  ghost predicate Linked(list: seq<nat>, m: map<nat, Vma>, head: Ptr) {
    && head == PtrAt(list, 0)
    && (forall i, j :: 0 <= i < j < |list| ==> list[i] != list[j])
    && (forall i :: 0 <= i < |list| ==> NodeAt(list, m, i))
  }

  ghost function AreasOf(list: seq<nat>, m: map<nat, Vma>): (r: seq<Area>)
    requires forall i :: 0 <= i < |list| ==> list[i] in m
    ensures |r| == |list| && forall i :: 0 <= i < |list| ==> r[i] == m[list[i]].area
  {
    if list == [] then [] else [m[list[0]].area] + AreasOf(list[1..], m)
  }

  /** The three pointer writes that put node p between its neighbours at position i. */
  function Spliced(list: seq<nat>, m: map<nat, Vma>, i: nat, p: nat, a: Area): map<nat, Vma>
    requires i <= |list| && (forall k :: 0 <= k < |list| ==> list[k] in m)
  {
    var m1 := m[p := Vma(a, PtrAt(list, i - 1), PtrAt(list, i))];
    var m2 := if i > 0 && list[i - 1] in m1 then m1[list[i - 1] := m1[list[i - 1]].(next := Some(p))] else m1;
    if i < |list| && list[i] in m2 then m2[list[i] := m2[list[i]].(prev := Some(p))] else m2
  }

  lemma SplicedLinked(list: seq<nat>, m: map<nat, Vma>, head: Ptr, i: nat, p: nat, a: Area)
    requires Linked(list, m, head) && i <= |list| && p !in m
    requires forall k :: 0 <= k < |list| ==> list[k] in m
    ensures var r := list[..i] + [p] + list[i..]; Linked(r, Spliced(list, m, i, p, a), if i == 0 then Some(p) else head)
  {
    var r := list[..i] + [p] + list[i..];
    var m' := Spliced(list, m, i, p, a);
    forall k | 0 <= k < |r| ensures NodeAt(r, m', k) {
      if k < i {
        assert NodeAt(list, m, k);
      } else if k > i {
        assert NodeAt(list, m, k - 1);
      }
    }
  }

  /** Splicing changes no area but the new one. */
  lemma SplicedKeeps(list: seq<nat>, m: map<nat, Vma>, i: nat, p: nat, a: Area)
    requires i <= |list| && p !in m && (forall k :: 0 <= k < |list| ==> list[k] in m)
    ensures var m' := Spliced(list, m, i, p, a);
            p in m' && m'[p].area == a && forall q :: q in m ==> q in m' && m'[q].area == m[q].area
  {
  }

  lemma AreasSplice(list: seq<nat>, m: map<nat, Vma>, m': map<nat, Vma>, i: nat, p: nat, a: Area)
    requires i <= |list| && (forall k :: 0 <= k < |list| ==> list[k] in m)
    requires p in m' && m'[p].area == a && forall q :: q in m ==> q in m' && m'[q].area == m[q].area
    ensures var r := list[..i] + [p] + list[i..];
            && (forall k :: 0 <= k < |r| ==> r[k] in m')
            && AreasOf(r, m') == AreasOf(list, m)[..i] + [a] + AreasOf(list, m)[i..]
  {
    var r := list[..i] + [p] + list[i..];
    forall k | 0 <= k < |r|
      ensures r[k] in m' && m'[r[k]].area == (AreasOf(list, m)[..i] + [a] + AreasOf(list, m)[i..])[k]
    {
      assert r[k] == if k < i then list[k] else if k == i then p else list[k - 1];
    }
  }

  class AddressSpace {
    var mmap: Ptr
    var vmas: map<nat, Vma>
    ghost var list: seq<nat>

    ghost predicate Valid()
      reads this
    {
      Linked(list, vmas, mmap) && (forall i :: 0 <= i < |list| ==> list[i] in vmas)
    }

    ghost function Areas(): seq<Area>
      requires Valid()
      reads this
    {
      AreasOf(list, vmas)
    }

    constructor ()
      ensures Valid() && Areas() == []
    {
      mmap, vmas, list := None, map[], [];
    }

    /** The walk to the first area at or above start; prev is the one before it. */
    method FindPlace(start: nat) returns (prev: Ptr, iter: Ptr, ghost i: nat)
      requires Valid()
      ensures i == Position(Areas(), start) && iter == PtrAt(list, i) && prev == PtrAt(list, i - 1)
    {
      prev, iter, i := None, mmap, 0;
      ghost var vs := Areas();
      while iter.Some? && vmas[iter.value].area.start < start
        invariant i <= |list| && iter == PtrAt(list, i) && prev == PtrAt(list, i - 1)
        invariant Position(vs, start) == i + Position(vs[i..], start)
        decreases |list| - i
      {
        assert NodeAt(list, vmas, i);
        assert vs[i..][1..] == vs[i + 1..];
        prev := iter;
        iter := vmas[iter.value].next;
        i := i + 1;
      }
    }

    /** Puts the struct p for the area between prev and iter. */
    method Link(p: nat, area: Area, prev: Ptr, iter: Ptr, ghost i: nat)
      requires Valid() && p !in vmas && i <= |list| && iter == PtrAt(list, i) && prev == PtrAt(list, i - 1)
      modifies this
      ensures Valid() && Areas() == old(Areas())[..i] + [area] + old(Areas())[i..]
    {
      SplicedLinked(list, vmas, mmap, i, p, area);
      SplicedKeeps(list, vmas, i, p, area);
      AreasSplice(list, vmas, Spliced(list, vmas, i, p, area), i, p, area);
      vmas := vmas[p := Vma(area, prev, iter)];
      if prev.Some? {
        vmas := vmas[prev.value := vmas[prev.value].(next := Some(p))];
      } else {
        mmap := Some(p);
      }
      if iter.Some? {
        vmas := vmas[iter.value := vmas[iter.value].(prev := Some(p))];
      }
      list := list[..i] + [p] + list[i..];
    }

    /** The neighbour test. */
    method Blocked(area: Area, prev: Ptr, iter: Ptr, ghost i: nat) returns (b: bool)
      requires Valid() && i == Position(Areas(), area.start) && iter == PtrAt(list, i) && prev == PtrAt(list, i - 1)
      ensures b <==> Insert(Areas(), area) == None
    {
      b := (prev.Some? && vmas[prev.value].area.end > area.start)
          || (iter.Some? && area.end > vmas[iter.value].area.start);
    }

    /** do_mmap. alloc is the address of the struct allocated for the new area, or None when the heap is
        full; on overlap the struct is freed again. */
    method DoMmap(addr: nat, length: nat, file: Option<File>, offset: nat, alloc: Ptr) returns (r: Ptr)
      requires Valid() && (alloc.Some? ==> alloc.value !in vmas)
      modifies this
      ensures Valid()
      ensures var n := MmapSpec.Mmap(old(Areas()), addr, length, file, offset);
              if alloc.Some? && n.Some? then r == alloc && Areas() == n.value
              else r == None && Areas() == old(Areas()) && vmas == old(vmas)
    {
      var start := AlignDown(addr);
      if file.Some? && offset < addr - start {
        return None;
      }
      var end := AlignUp((addr + length) % WORD);
      if alloc == None {
        return None;
      }
      var area := Area(start, end, if file.Some? then offset - (addr - start) else 0, file);
      if mmap == None {
        Link(alloc.value, area, None, None, 0);
        return alloc;
      }
      var prev, iter, i := FindPlace(start);
      var blocked := Blocked(area, prev, iter, i);
      if blocked {
        return None;
      }
      Link(alloc.value, area, prev, iter, i);
      return alloc;
    }

    /** find_vma. */
    method FindVma(addr: nat) returns (r: Ptr)
      requires Valid()
      ensures MmapSpec.FindVma(Areas(), addr)
           == if r.Some? && r.value in vmas then Some(vmas[r.value].area) else None
      ensures r.Some? ==> r.value in list
    {
      ghost var vs := Areas();
      ghost var i := 0;
      r := mmap;
      while r.Some?
        invariant i <= |list| && r == PtrAt(list, i)
        invariant MmapSpec.FindVma(vs, addr) == MmapSpec.FindVma(vs[i..], addr)
        decreases |list| - i
      {
        assert NodeAt(list, vmas, i);
        assert vs[i..][1..] == vs[i + 1..];
        if vmas[r.value].area.start <= addr < vmas[r.value].area.end {
          return;
        }
        r := vmas[r.value].next;
        i := i + 1;
      }
    }

    // ----- release_mm, the part that works on the heap

    /** vma_file_seen: whether some area before node i holds the file. */
    method VmaFileSeen(stop: nat, id: nat, ghost i: nat) returns (seen: bool)
      requires Valid() && i < |list| && stop == list[i]
      ensures seen <==> HasFile(Areas()[..i], id)
    {
      ghost var vs := Areas();
      var iter := mmap;
      ghost var k := 0;
      while iter != Some(stop)
        invariant k <= i && iter == PtrAt(list, k) && !HasFile(vs[..k], id)
        decreases i - k
      {
        assert NodeAt(list, vmas, k);
        HasFileNext(vs, k, id);
        var file := vmas[iter.value].area.file;
        if file.Some? && file.value.id == id {
          HasFilePrefix(vs, k + 1, i, id);
          return true;
        }
        iter := vmas[iter.value].next;
        k := k + 1;
      }
      return false;
    }

    /** The first loop: closes and frees each distinct file of the list. */
    method FreeFiles() returns (log: seq<Block>)
      requires Valid()
      ensures FilesFreed(log, Areas())
    {
      ghost var vs := Areas();
      var vma := mmap;
      ghost var i := 0;
      log := [];
      while vma.Some?
        invariant i <= |list| && vma == PtrAt(list, i) && FilesFreed(log, vs[..i])
        decreases |list| - i
      {
        assert NodeAt(list, vmas, i);
        var file := vmas[vma.value].area.file;
        var seen := false;
        if file.Some? {
          seen := VmaFileSeen(vma.value, file.value.id, i);
        }
        FilesFreedNext(log, vs, i);
        if file.Some? && !seen {
          log := log + [InodeOf(file.value.id), FileOf(file.value.id)];
        }
        vma := vmas[vma.value].next;
        i := i + 1;
      }
      assert vs[..i] == vs;
    }

    /** The second loop: reads the next pointer of each struct before freeing it. */
    method FreeVmas() returns (log: seq<Block>)
      requires Valid()
      modifies this`vmas
      ensures |log| == |list| && forall k :: 0 <= k < |list| ==> log[k] == VmaAt(list[k])
      ensures vmas == old(vmas) - (set p | p in list)
    {
      var vma := mmap;
      ghost var i := 0;
      log := [];
      while vma.Some?
        invariant i <= |list| && vma == PtrAt(list, i)
        invariant |log| == i && forall k :: 0 <= k < i ==> log[k] == VmaAt(list[k])
        invariant vmas == old(vmas) - (set p | p in list[..i])
        decreases |list| - i
      {
        assert old(NodeAt(list, vmas, i));
        assert list[i] !in list[..i];
        var next := vmas[vma.value].next;
        vmas := vmas - {vma.value};
        log := log + [VmaAt(vma.value)];
        vma := next;
        assert list[..i + 1] == list[..i] + [list[i]];
        i := i + 1;
      }
      assert list[..i] == list;
    }

    /** The heap calls of release_mm, in order. */
    method ReleaseHeap() returns (log: seq<Block>)
      requires Valid()
      modifies this`vmas
      ensures Distinct(log) && forall b :: b in log <==> Owns(list, old(Areas()), b)
      ensures vmas == old(vmas) - (set p | p in list)
    {
      ghost var vs := Areas();
      var files := FreeFiles();
      var areas := FreeVmas();
      log := files + areas + [MmStruct];
      ReleasedOnce(files, areas, list, vs);
    }
  }

  /** The heap blocks that an address space owns. */
  datatype Block = InodeOf(file: nat) | FileOf(file: nat) | VmaAt(at: nat) | MmStruct

  predicate HasFile(vs: seq<Area>, id: nat) {
    exists i :: 0 <= i < |vs| && vs[i].file.Some? && vs[i].file.value.id == id
  }

  ghost predicate Owns(list: seq<nat>, vs: seq<Area>, b: Block) {
    match b
    case InodeOf(id) => HasFile(vs, id)
    case FileOf(id) => HasFile(vs, id)
    case VmaAt(p) => p in list
    case MmStruct => true
  }

  /** The log frees the inode and the struct of every file of vs once, and nothing else. */
  ghost predicate FilesFreed(log: seq<Block>, vs: seq<Area>) {
    && Distinct(log)
    && (forall b :: b in log ==> b.InodeOf? || b.FileOf?)
    && (forall id :: InodeOf(id) in log <==> HasFile(vs, id))
    && (forall id :: FileOf(id) in log <==> HasFile(vs, id))
  }

  lemma HasFileNext(vs: seq<Area>, k: nat, id: nat)
    requires k < |vs|
    ensures HasFile(vs[..k + 1], id) <==> HasFile(vs[..k], id) || (vs[k].file.Some? && vs[k].file.value.id == id)
  {
    if vs[k].file.Some? && vs[k].file.value.id == id {
      assert vs[..k + 1][k] == vs[k];
    }
    if HasFile(vs[..k], id) {
      var i :| 0 <= i < k && vs[..k][i].file.Some? && vs[..k][i].file.value.id == id;
      assert vs[..k + 1][i] == vs[i];
    }
    if HasFile(vs[..k + 1], id) {
      var i :| 0 <= i < k + 1 && vs[..k + 1][i].file.Some? && vs[..k + 1][i].file.value.id == id;
      assert i < k ==> vs[..k][i] == vs[i];
    }
  }

  lemma HasFilePrefix(vs: seq<Area>, k: nat, n: nat, id: nat)
    requires k <= n <= |vs| && HasFile(vs[..k], id)
    ensures HasFile(vs[..n], id)
  {
    var i :| 0 <= i < k && vs[..k][i].file.Some? && vs[..k][i].file.value.id == id;
    assert vs[..n][i] == vs[i];
  }

  lemma FilesFreedNext(log: seq<Block>, vs: seq<Area>, i: nat)
    requires i < |vs| && FilesFreed(log, vs[..i])
    ensures vs[i].file.Some? && !HasFile(vs[..i], vs[i].file.value.id) ==>
              FilesFreed(log + [InodeOf(vs[i].file.value.id), FileOf(vs[i].file.value.id)], vs[..i + 1])
    ensures vs[i].file == None || HasFile(vs[..i], vs[i].file.value.id) ==> FilesFreed(log, vs[..i + 1])
  {
    forall id
      ensures HasFile(vs[..i + 1], id) <==> HasFile(vs[..i], id) || (vs[i].file.Some? && vs[i].file.value.id == id)
    {
      HasFileNext(vs, i, id);
    }
  }

  /** Every block an address space owns is freed exactly once, however many areas share a file. */
  lemma ReleasedOnce(files: seq<Block>, areas: seq<Block>, list: seq<nat>, vs: seq<Area>)
    requires FilesFreed(files, vs)
    requires |areas| == |list| && forall k :: 0 <= k < |list| ==> areas[k] == VmaAt(list[k])
    requires forall i, j :: 0 <= i < j < |list| ==> list[i] != list[j]
    ensures var log := files + areas + [MmStruct]; Distinct(log) && forall b :: b in log <==> Owns(list, vs, b)
  {
    forall b ensures b in areas <==> b.VmaAt? && b.at in list {
      if b.VmaAt? && b.at in list {
        var k :| 0 <= k < |list| && list[k] == b.at;
        assert areas[k] == b;
      }
    }
    assert Distinct(areas);
    DistinctAppend(files, areas);
    DistinctAppend(files + areas, [MmStruct]);
    assert forall b :: Owns(list, vs, b) <==> b in files || b in areas || b == MmStruct;
  }

  lemma DistinctAppend(a: seq<Block>, b: seq<Block>)
    requires Distinct(a) && Distinct(b) && forall x :: x in a ==> x !in b
    ensures Distinct(a + b) && forall x :: x in a + b <==> x in a || x in b
  {
    var c := a + b;
    forall i, j | 0 <= i < j < |c|
      ensures c[i] != c[j]
    {
      assert c[i] == if i < |a| then a[i] else b[i - |a|];
      assert c[j] == if j < |a| then a[j] else b[j - |a|];
      assert i < |a| ==> c[i] in a;
      assert j >= |a| ==> c[j] in b;
    }
  }
}

/** The frees of release_mm on the kernel heap. */
module MmHeap {
  import opened Words
  import HeapSpec
  import opened Vm
  import opened MmapSpec
  import opened Mmap

  /** Where an address space's blocks lie in the heap: each at a live pointer of its own. */
  ghost predicate Placed(bs: seq<HeapSpec.Block>, list: seq<nat>, vs: seq<Area>, at: map<Block, nat>) {
    && (forall b :: b in at <==> Owns(list, vs, b))
    && (forall b :: b in at ==> HeapSpec.Live(bs, at[b]))
    && (forall b, c :: b in at && c in at && at[b] == at[c] ==> b == c)
  }

  function Pointers(log: seq<Block>, at: map<Block, nat>): (r: seq<nat>)
    requires forall b :: b in log ==> b in at
    ensures |r| == |log| && forall i :: 0 <= i < |log| ==> r[i] == at[log[i]]
  {
    seq(|log|, i requires 0 <= i < |log| => assert log[i] in log; at[log[i]])
  }

  /** Freeing what ReleaseHeap logs takes exactly the blocks of the address space out of the heap, and the
      block list stays canonical. */
  lemma HeapLosesWhatMmOwned(bs: seq<HeapSpec.Block>, log: seq<Block>, list: seq<nat>, vs: seq<Area>,
        at: map<Block, nat>)
    requires HeapSpec.Canonical(bs) && Placed(bs, list, vs, at)
    requires Distinct(log) && forall b :: b in log <==> Owns(list, vs, b)
    ensures var ps := Pointers(log, at);
            && Distinct(ps) && (forall p :: p in ps ==> HeapSpec.Live(bs, p))
            && HeapSpec.Canonical(HeapSpec.FreeAll(bs, ps))
            && HeapSpec.Allocated(HeapSpec.FreeAll(bs, ps))
               == set b | b in HeapSpec.Allocated(bs) && b.Payload() !in at.Values
  {
    var ps := Pointers(log, at);
    forall i, j | 0 <= i < j < |ps| ensures ps[i] != ps[j] {
      assert log[i] in log && log[j] in log;
    }
    forall p ensures p in ps <==> p in at.Values {
      if p in at.Values {
        var b :| b in at && at[b] == p;
        var i :| 0 <= i < |log| && log[i] == b;
        assert ps[i] == p;
      }
      if p in ps {
        var i :| 0 <= i < |ps| && ps[i] == p;
        assert log[i] in log;
      }
    }
    HeapSpec.FreeAllKeeps(bs, ps);
  }
}
