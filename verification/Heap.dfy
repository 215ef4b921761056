/** The block list of the kernel heap as a value: first-fit allocation with splitting, and freeing
    with full coalescing. Addresses are offsets into the 64 KiB heap array. */
module HeapSpec {
  import opened Words

  const HEADER: nat := 12
  const HEAP_SIZE: nat := 65536
  const MAX_REQUEST: nat := 0xffff_fff8

  datatype Block = Block(addr: nat, size: nat, free: bool) {
    function End(): nat { addr + HEADER + size }
    function Payload(): nat { addr + HEADER }
    predicate Fits(n: nat) { free && size >= n }
  }

  /** Rounding of a request in 32-bit arithmetic: requests above MAX_REQUEST wrap to zero. */
  function AlignUp(size: nat): nat {
    (size + 7) % WORD / 8 * 8
  }

  lemma AlignUpCovers(size: nat)
    requires size < WORD
    ensures size <= AlignUp(size) <==> size <= MAX_REQUEST
    ensures size > MAX_REQUEST ==> AlignUp(size) == 0
    ensures size <= MAX_REQUEST ==> AlignUp(size) < size + 8 && AlignUp(size) % 8 == 0
  {
  }

  // ----- shape of the list

  predicate Adjacent(bs: seq<Block>, i: nat)
    requires i < |bs| - 1
  {
    bs[i].End() == bs[i + 1].addr
  }

  predicate Separating(bs: seq<Block>, i: nat)
    requires i < |bs| - 1
  {
    !(bs[i].free && bs[i + 1].free)
  }

  /** The blocks cover exactly [lo, hi) in address order, with no gap and no overlap. */
  predicate Spans(bs: seq<Block>, lo: nat, hi: nat) {
    && bs != [] && bs[0].addr == lo && bs[|bs| - 1].End() == hi
    && forall i :: 0 <= i < |bs| - 1 ==> Adjacent(bs, i)
  }

  predicate Tiles(bs: seq<Block>) {
    Spans(bs, 0, HEAP_SIZE)
  }

  predicate Coalesced(bs: seq<Block>) {
    forall i :: 0 <= i < |bs| - 1 ==> Separating(bs, i)
  }

  predicate WordAligned(b: Block) { b.addr % 4 == 0 && b.size % 4 == 0 }

  predicate Aligned(bs: seq<Block>) {
    forall i :: 0 <= i < |bs| ==> WordAligned(bs[i])
  }

  predicate Canonical(bs: seq<Block>) {
    Tiles(bs) && Coalesced(bs) && Aligned(bs)
  }

  function Allocated(bs: seq<Block>): set<Block> {
    set b | b in bs && !b.free
  }

  const Initial: seq<Block> := [Block(0, HEAP_SIZE - HEADER, true)]

  // ----- operations

  /** Index of the first free block of at least n bytes, or |bs|. */
  function FirstFit(bs: seq<Block>, n: nat): (r: nat)
    ensures r <= |bs|
    ensures r < |bs| ==> bs[r].Fits(n)
    ensures forall i :: 0 <= i < r ==> !bs[i].Fits(n)
  {
    if bs == [] || bs[0].Fits(n) then 0 else 1 + FirstFit(bs[1..], n)
  }

  /** Cuts block i to n bytes when the rest can hold a header and 8 bytes. */
  function Split(bs: seq<Block>, i: nat, n: nat): (r: seq<Block>)
    requires i < |bs| && bs[i].Fits(n)
    ensures |bs| <= |r|
  {
    if bs[i].size < n + HEADER + 8 then bs
    else bs[..i] + [Block(bs[i].addr, n, true),
                    Block(bs[i].addr + HEADER + n, bs[i].size - n - HEADER, true)] + bs[i + 1..]
  }

  function Carve(bs: seq<Block>, i: nat, n: nat): seq<Block>
    requires i < |bs| && bs[i].Fits(n)
  {
    var r := Split(bs, i, n);
    r[i := r[i].(free := false)]
  }

  function Malloc(bs: seq<Block>, size: nat): (seq<Block>, Ptr) {
    var n := AlignUp(size);
    var i := FirstFit(bs, n);
    if i == |bs| then (bs, None) else (Carve(bs, i, n), Some(bs[i].Payload()))
  }

  function Coalesce(bs: seq<Block>): (r: seq<Block>)
    decreases |bs|
  {
    if |bs| < 2 then bs
    else if bs[0].free && bs[1].free && bs[0].End() == bs[1].addr then
      Coalesce(MergeHead(bs))
    else [bs[0]] + Coalesce(bs[1..])
  }

  predicate Live(bs: seq<Block>, p: nat) {
    exists b :: b in bs && !b.free && b.Payload() == p
  }

  function IndexOf(bs: seq<Block>, p: nat): (i: nat)
    requires Live(bs, p)
    ensures i < |bs| && !bs[i].free && bs[i].Payload() == p
  {
    if !bs[0].free && bs[0].Payload() == p then 0 else 1 + IndexOf(bs[1..], p)
  }

  function Free(bs: seq<Block>, p: nat): seq<Block>
    requires Live(bs, p)
  {
    var i := IndexOf(bs, p);
    Coalesce(bs[i := bs[i].(free := true)])
  }

  // ----- tiling

  lemma {:induction false} Ordered(bs: seq<Block>, lo: nat, hi: nat, i: nat, j: nat)
    requires Spans(bs, lo, hi) && i < j < |bs|
    ensures bs[i].End() <= bs[j].addr
    decreases j
  {
    assert Adjacent(bs, j - 1);
    if i < j - 1 {
      Ordered(bs, lo, hi, i, j - 1);
    }
  }

  lemma SameAddressSameIndex(bs: seq<Block>, lo: nat, hi: nat, i: nat, j: nat)
    requires Spans(bs, lo, hi) && i < |bs| && j < |bs|
    requires bs[i].addr <= bs[j].addr < bs[i].End()
    ensures i == j
  {
    if i < j {
      Ordered(bs, lo, hi, i, j);
    } else if j < i {
      Ordered(bs, lo, hi, j, i);
    }
  }

  /** Every byte of the heap lies in some block. */
  lemma {:induction false} Covers(bs: seq<Block>, lo: nat, hi: nat, a: nat) returns (i: nat)
    requires Spans(bs, lo, hi) && lo <= a < hi
    ensures i < |bs| && bs[i].addr <= a < bs[i].End()
  {
    i := 0;
    while bs[i].End() <= a
      invariant i < |bs| && bs[i].addr <= a
      decreases |bs| - i
    {
      assert i < |bs| - 1 ==> Adjacent(bs, i);
      i := i + 1;
    }
  }

  // ----- a canonical list is determined by its allocated blocks

  lemma {:induction false} SamePrefix(a: seq<Block>, b: seq<Block>, k: nat)
    requires Canonical(a) && Canonical(b) && Allocated(a) == Allocated(b)
    requires k <= |a|
    ensures k <= |b| && a[..k] == b[..k]
  {
    if k > 0 {
      SamePrefix(a, b, k - 1);
      var i := k - 1;
      if i == |b| {
        assert Adjacent(a, i - 1);
        assert a[i - 1] == a[..i][i - 1] == b[..i][i - 1] == b[i - 1];
        if i < |a| - 1 { Ordered(a, 0, HEAP_SIZE, i, |a| - 1); }
        assert false;
      }
      SameBlock(a, b, i);
    }
  }

  lemma SameBlock(a: seq<Block>, b: seq<Block>, i: nat)
    requires Canonical(a) && Canonical(b) && Allocated(a) == Allocated(b)
    requires i < |a| && i < |b| && a[..i] == b[..i]
    ensures a[i] == b[i]
  {
    if i > 0 {
      assert a[i - 1] == a[..i][i - 1] == b[..i][i - 1] == b[i - 1];
      assert Adjacent(a, i - 1) && Adjacent(b, i - 1);
    }
    assert a[i].addr == b[i].addr;
    NotLonger(a, b, i);
    NotLonger(b, a, i);
  }

  lemma NotLonger(a: seq<Block>, b: seq<Block>, i: nat)
    requires Canonical(a) && Canonical(b) && Allocated(a) == Allocated(b)
    requires i < |a| && i < |b| && a[i].addr == b[i].addr
    ensures !a[i].free ==> b[i] == a[i]
    ensures a[i].free && b[i].free ==> a[i].size >= b[i].size
  {
    if !a[i].free {
      assert a[i] in Allocated(b);
      var j :| 0 <= j < |b| && b[j] == a[i];
      SameAddressSameIndex(b, 0, HEAP_SIZE, i, j);
    } else if b[i].free && a[i].size < b[i].size {
      if i + 1 == |a| {
        assert a[i].End() == HEAP_SIZE;
        if i < |b| - 1 { Ordered(b, 0, HEAP_SIZE, i, |b| - 1); }
        assert false;
      } else {
        assert Adjacent(a, i) && Separating(a, i);
        assert a[i + 1] in Allocated(b);
        var j :| 0 <= j < |b| && b[j] == a[i + 1];
        SameAddressSameIndex(b, 0, HEAP_SIZE, i, j);
        assert false;
      }
    }
  }

  /** Two canonical lists with the same allocated blocks are the same list. */
  lemma CanonicalUnique(a: seq<Block>, b: seq<Block>)
    requires Canonical(a) && Canonical(b) && Allocated(a) == Allocated(b)
    ensures a == b
  {
    SamePrefix(a, b, |a|);
    SamePrefix(b, a, |b|);
  }

  // ----- allocation

  lemma CarveAllocates(bs: seq<Block>, i: nat, n: nat)
    requires i < |bs| && bs[i].Fits(n)
    ensures Allocated(Carve(bs, i, n)) == Allocated(bs) + {Carve(bs, i, n)[i]}
  {
    var bs' := Carve(bs, i, n);
    forall b | b in Allocated(bs) ensures b in Allocated(bs') {
      var k :| 0 <= k < |bs| && bs[k] == b;
      assert bs'[k] == b || bs'[k + 1] == b;
    }
    assert bs == bs[..i] + [bs[i]] + bs[i + 1..];
  }

  lemma SplitTiles(bs: seq<Block>, i: nat, n: nat)
    requires Tiles(bs) && i < |bs| && bs[i].Fits(n)
    ensures Tiles(Split(bs, i, n)) && Tiles(Carve(bs, i, n))
  {
    var r := Split(bs, i, n);
    forall k | 0 <= k < |r| - 1 ensures Adjacent(r, k) && Adjacent(Carve(bs, i, n), k) {
      if bs[i].size < n + HEADER + 8 || k < i {
        assert Adjacent(bs, k);
      } else if k > i {
        assert Adjacent(bs, k - 1);
      }
    }
  }

  lemma CarveCoalesced(bs: seq<Block>, i: nat, n: nat)
    requires Coalesced(bs) && i < |bs| && bs[i].Fits(n)
    ensures Coalesced(Carve(bs, i, n))
  {
    var r := Carve(bs, i, n);
    forall k | 0 <= k < |r| - 1 ensures Separating(r, k) {
      if bs[i].size < n + HEADER + 8 || k < i {
        assert Separating(bs, k);
      } else if k > i {
        assert Separating(bs, k - 1);
      }
    }
  }

  lemma CutAligned(b: Block, n: nat)
    requires WordAligned(b) && n % 4 == 0 && b.size >= n + HEADER
    ensures WordAligned(Block(b.addr + HEADER + n, b.size - n - HEADER, true))
  {
  }

  lemma CarveAligned(bs: seq<Block>, i: nat, n: nat)
    requires Aligned(bs) && i < |bs| && bs[i].Fits(n) && n % 4 == 0
    ensures Aligned(Carve(bs, i, n))
  {
    var r := Carve(bs, i, n);
    if bs[i].size >= n + HEADER + 8 {
      CutAligned(bs[i], n);
    }
    forall k | 0 <= k < |r| ensures WordAligned(r[k]) {
      if k < i || bs[i].size < n + HEADER + 8 {
        assert WordAligned(bs[k]);
      } else if k > i + 1 {
        assert WordAligned(bs[k - 1]);
      }
    }
  }

  lemma CarveKeeps(bs: seq<Block>, i: nat, n: nat)
    requires Canonical(bs) && i < |bs| && bs[i].Fits(n) && n % 4 == 0
    ensures Canonical(Carve(bs, i, n)) && NewBlock(bs, Carve(bs, i, n), Carve(bs, i, n)[i], bs[i].Payload(), n)
  {
    var b := Carve(bs, i, n)[i];
    SplitTiles(bs, i, n);
    CarveCoalesced(bs, i, n);
    CarveAligned(bs, i, n);
    CarveAllocates(bs, i, n);
    if b in Allocated(bs) {
      OneBlockPerPointer(bs, bs[i], b);
    }
  }

  lemma AlignUpWord(size: nat)
    ensures AlignUp(size) % 4 == 0
  {
    WholeWords((size + 7) % WORD / 8);
  }

  lemma WholeWords(q: nat)
    ensures q * 8 % 4 == 0
  {
  }

  /** A successful kmalloc keeps the list canonical and allocates exactly one new block, wasting fewer bytes than
      another block of 8 bytes would take. */
  lemma MallocKeeps(bs: seq<Block>, size: nat)
    requires Canonical(bs) && size < WORD
    ensures Canonical(Malloc(bs, size).0)
    ensures var (bs', p) := Malloc(bs, size);
            p.Some? ==> exists b :: NewBlock(bs, bs', b, p.value, AlignUp(size))
                                    && b.size < AlignUp(size) + HEADER + 8
  {
    var n := AlignUp(size);
    var i := FirstFit(bs, n);
    AlignUpWord(size);
    if i < |bs| {
      CarveKeeps(bs, i, n);
    }
  }

  /** bs' allocates exactly one block more than bs: b, with its payload at p and at least n bytes. */
  ghost predicate NewBlock(bs: seq<Block>, bs': seq<Block>, b: Block, p: nat, n: nat) {
    && !b.free && b.Payload() == p && b.size >= n
    && b !in Allocated(bs) && Allocated(bs') == Allocated(bs) + {b}
  }

  /** A header and n bytes starting at a touch no allocated block, header included. */
  predicate FreeExtent(bs: seq<Block>, a: nat, n: nat) {
    && a + HEADER + n <= HEAP_SIZE
    && forall b :: b in bs && !b.free ==> a + HEADER + n <= b.addr || b.End() <= a
  }

  lemma ExtentInBlock(bs: seq<Block>, a: nat, n: nat) returns (j: nat)
    requires Canonical(bs) && FreeExtent(bs, a, n)
    ensures j < |bs| && bs[j].Fits(n)
  {
    j := Covers(bs, 0, HEAP_SIZE, a);
    assert bs[j] in bs;
    if j + 1 < |bs| { assert bs[j + 1] in bs && Adjacent(bs, j) && Separating(bs, j); }
  }

  lemma BlockIsExtent(bs: seq<Block>, i: nat, n: nat)
    requires Canonical(bs) && i < |bs| && bs[i].Fits(n)
    ensures FreeExtent(bs, bs[i].addr, n)
  {
    forall j | 0 <= j < |bs| && !bs[j].free
      ensures bs[i].addr + HEADER + n <= bs[j].addr || bs[j].End() <= bs[i].addr
    {
      if i < j { Ordered(bs, 0, HEAP_SIZE, i, j); } else { Ordered(bs, 0, HEAP_SIZE, j, i); }
    }
    EndsInside(bs, i);
  }

  lemma EndsInside(bs: seq<Block>, i: nat)
    requires Tiles(bs) && i < |bs|
    ensures bs[i].End() <= HEAP_SIZE
  {
    if i < |bs| - 1 { Ordered(bs, 0, HEAP_SIZE, i, |bs| - 1); }
  }

  /** kmalloc fails exactly when no free extent can hold a header and the rounded request. */
  lemma MallocComplete(bs: seq<Block>, size: nat)
    requires Canonical(bs)
    ensures Malloc(bs, size).1 == None <==> !exists a :: FreeExtent(bs, a, AlignUp(size))
  {
    var n := AlignUp(size);
    var i := FirstFit(bs, n);
    if i < |bs| {
      BlockIsExtent(bs, i, n);
    }
    forall a | FreeExtent(bs, a, n) ensures i < |bs| {
      var j := ExtentInBlock(bs, a, n);
    }
  }

  lemma GapEnds(bs: seq<Block>, i: nat)
    requires Canonical(bs) && i < |bs| && bs[i].free
    ensures !FreeExtent(bs, bs[i].addr, bs[i].size + 1)
  {
    if i + 1 < |bs| { assert Adjacent(bs, i) && Separating(bs, i) && bs[i + 1] in bs; }
  }

  lemma FirstIsLowest(bs: seq<Block>, n: nat, a: nat)
    requires Canonical(bs) && FreeExtent(bs, a, n) && FirstFit(bs, n) < |bs|
    ensures bs[FirstFit(bs, n)].addr <= a
  {
    var i := FirstFit(bs, n);
    var j := Covers(bs, 0, HEAP_SIZE, a);
    assert bs[j] in bs;
    if j + 1 < |bs| { assert bs[j + 1] in bs && Adjacent(bs, j) && Separating(bs, j); }
    assert bs[j].Fits(n);
    if i < j { Ordered(bs, 0, HEAP_SIZE, i, j); }
  }

  /** A request of n bytes takes the extent at a: the lowest one that is large enough, cut to n bytes when the gap
      also has room for a header and 8 bytes, and the whole gap otherwise. */
  ghost predicate Takes(bs: seq<Block>, bs': seq<Block>, b: Block, n: nat) {
    && NewBlock(bs, bs', b, b.Payload(), n)
    && (forall a :: FreeExtent(bs, a, n) ==> b.addr <= a)
    && FreeExtent(bs, b.addr, b.size)
    && if FreeExtent(bs, b.addr, n + HEADER + 8) then b.size == n else !FreeExtent(bs, b.addr, b.size + 1)
  }

  lemma CarveSize(bs: seq<Block>, i: nat, n: nat)
    requires Canonical(bs) && i < |bs| && bs[i].Fits(n)
    ensures var b := Carve(bs, i, n)[i];
            && b.addr == bs[i].addr && FreeExtent(bs, b.addr, b.size)
            && if FreeExtent(bs, b.addr, n + HEADER + 8) then b.size == n else !FreeExtent(bs, b.addr, b.size + 1)
  {
    BlockIsExtent(bs, i, bs[i].size);
    GapEnds(bs, i);
    ExtentShrinks(bs, bs[i].addr, bs[i].size, n);
    ExtentShrinks(bs, bs[i].addr, bs[i].size, n + HEADER + 8);
    ExtentShrinks(bs, bs[i].addr, n + HEADER + 8, bs[i].size + 1);
  }

  /** Which bytes a successful kmalloc takes. As the list stays canonical, this leaves no choice. */
  lemma MallocTakes(bs: seq<Block>, size: nat)
    requires Canonical(bs) && size < WORD
    ensures var (bs', p) := Malloc(bs, size);
            p.Some? ==> exists b: Block :: b.Payload() == p.value && Takes(bs, bs', b, AlignUp(size))
  {
    var n := AlignUp(size);
    var i := FirstFit(bs, n);
    AlignUpWord(size);
    if i < |bs| {
      CarveKeeps(bs, i, n);
      forall a | FreeExtent(bs, a, n) ensures bs[i].addr <= a { FirstIsLowest(bs, n, a); }
      CarveSize(bs, i, n);
      assert Takes(bs, Carve(bs, i, n), Carve(bs, i, n)[i], n);
    }
  }

  lemma TakenBlockUnique(bs: seq<Block>, r: seq<Block>, q: seq<Block>, b: Block, c: Block, n: nat)
    requires Takes(bs, r, b, n) && Takes(bs, q, c, n)
    ensures b == c
  {
    assert FreeExtent(bs, b.addr, n) && FreeExtent(bs, c.addr, n);
    TakesNoMore(bs, r, q, b, c, n);
    TakesNoMore(bs, q, r, c, b, n);
  }

  lemma TakesNoMore(bs: seq<Block>, r: seq<Block>, q: seq<Block>, b: Block, c: Block, n: nat)
    requires Takes(bs, r, b, n) && Takes(bs, q, c, n) && b.addr == c.addr
    ensures c.size <= b.size
  {
    if !FreeExtent(bs, b.addr, n + HEADER + 8) {
      ExtentShrinks(bs, b.addr, c.size, b.size + 1);
    }
  }

  lemma ExtentShrinks(bs: seq<Block>, a: nat, n: nat, m: nat)
    ensures FreeExtent(bs, a, n) && m <= n ==> FreeExtent(bs, a, m)
  {
  }

  /** Whatever list takes the request in that way and is canonical is the list that kmalloc leaves. */
  lemma MallocUnique(bs: seq<Block>, size: nat, r: seq<Block>, b: Block)
    requires Canonical(bs) && size < WORD && Canonical(r) && Takes(bs, r, b, AlignUp(size))
    ensures Malloc(bs, size) == (r, Some(b.Payload()))
  {
    MallocComplete(bs, size);
    assert FreeExtent(bs, b.addr, AlignUp(size));
    MallocKeeps(bs, size);
    MallocTakes(bs, size);
    var (q, p) := Malloc(bs, size);
    var c: Block :| c.Payload() == p.value && Takes(bs, q, c, AlignUp(size));
    TakenBlockUnique(bs, r, q, b, c, AlignUp(size));
    CanonicalUnique(r, q);
  }

  // ----- freeing

  /** The list after one merge of the two blocks at its head. */
  function MergeHead(bs: seq<Block>): (r: seq<Block>)
    requires |bs| >= 2
    ensures |r| == |bs| - 1
  {
    [bs[0].(size := bs[0].size + HEADER + bs[1].size)] + bs[2..]
  }

  lemma MergeHeadSpans(bs: seq<Block>, lo: nat, hi: nat)
    requires |bs| >= 2 && Spans(bs, lo, hi)
    ensures Spans(MergeHead(bs), lo, hi)
  {
    var r := MergeHead(bs);
    assert Adjacent(bs, 0);
    forall k | 0 <= k < |r| - 1 ensures Adjacent(r, k) {
      assert Adjacent(bs, k + 1);
    }
  }

  lemma ConsSpans(b: Block, bs: seq<Block>, hi: nat)
    requires Spans(bs, b.End(), hi)
    ensures Spans([b] + bs, b.addr, hi)
    ensures Coalesced(bs) && !(b.free && bs[0].free) ==> Coalesced([b] + bs)
  {
    var r := [b] + bs;
    forall k | 0 <= k < |r| - 1
      ensures Adjacent(r, k) && (Separating(r, k) <== Coalesced(bs) && !(b.free && bs[0].free))
    {
      if k > 0 {
        assert Adjacent(bs, k - 1);
        assert Coalesced(bs) ==> Separating(bs, k - 1);
      }
    }
  }

  lemma TailSpans(bs: seq<Block>, lo: nat, hi: nat)
    requires |bs| >= 2 && Spans(bs, lo, hi)
    ensures Spans(bs[1..], bs[0].End(), hi) && bs[0].End() == bs[1].addr
  {
    assert Adjacent(bs, 0);
    forall k | 0 <= k < |bs| - 2 ensures Adjacent(bs[1..], k) {
      assert Adjacent(bs, k + 1);
    }
  }

  lemma {:induction false} CoalesceSpans(bs: seq<Block>, lo: nat, hi: nat)
    requires Spans(bs, lo, hi)
    ensures Spans(Coalesce(bs), lo, hi) && Coalesce(bs)[0].free == bs[0].free
    ensures Coalesced(Coalesce(bs))
    decreases |bs|
  {
    if |bs| >= 2 {
      TailSpans(bs, lo, hi);
      if bs[0].free && bs[1].free {
        MergeHeadSpans(bs, lo, hi);
        CoalesceSpans(MergeHead(bs), lo, hi);
      } else {
        CoalesceSpans(bs[1..], bs[1].addr, hi);
        ConsSpans(bs[0], Coalesce(bs[1..]), hi);
      }
    }
  }

  lemma {:induction false} CoalesceAligned(bs: seq<Block>)
    requires Aligned(bs)
    ensures Aligned(Coalesce(bs))
    decreases |bs|
  {
    if |bs| >= 2 {
      assert WordAligned(bs[0]) && WordAligned(bs[1]);
      if bs[0].free && bs[1].free && bs[0].End() == bs[1].addr {
        forall k | 0 <= k < |bs| - 1 ensures WordAligned(MergeHead(bs)[k]) {
          assert WordAligned(bs[if k == 0 then 0 else k + 1]);
        }
        CoalesceAligned(MergeHead(bs));
      } else {
        forall k | 0 <= k < |bs| - 1 ensures WordAligned(bs[1..][k]) {
          assert WordAligned(bs[k + 1]);
        }
        CoalesceAligned(bs[1..]);
      }
    }
  }

  lemma {:induction false} CoalesceAllocated(bs: seq<Block>)
    ensures Allocated(Coalesce(bs)) == Allocated(bs)
    decreases |bs|
  {
    if |bs| >= 2 {
      if bs[0].free && bs[1].free && bs[0].End() == bs[1].addr {
        CoalesceAllocated(MergeHead(bs));
        assert bs == [bs[0], bs[1]] + bs[2..];
      } else {
        CoalesceAllocated(bs[1..]);
        assert bs == [bs[0]] + bs[1..];
        assert Allocated([bs[0]] + Coalesce(bs[1..])) == Allocated([bs[0]]) + Allocated(Coalesce(bs[1..]));
        assert Allocated(bs) == Allocated([bs[0]]) + Allocated(bs[1..]);
      }
    }
  }

  lemma FreeKeeps(bs: seq<Block>, p: nat)
    requires Canonical(bs) && Live(bs, p)
    ensures Canonical(Free(bs, p))
    ensures Allocated(Free(bs, p)) == set b | b in Allocated(bs) && b.Payload() != p
  {
    var i := IndexOf(bs, p);
    var marked := bs[i := bs[i].(free := true)];
    forall k | 0 <= k < |bs| ensures WordAligned(marked[k]) {
      assert WordAligned(bs[k]);
    }
    forall k | 0 <= k < |marked| - 1 ensures Adjacent(marked, k) {
      assert Adjacent(bs, k);
    }
    CoalesceSpans(marked, 0, HEAP_SIZE);
    CoalesceAligned(marked);
    CoalesceAllocated(marked);
    forall b | b in Allocated(bs) && b.Payload() != p ensures b in Allocated(marked) {
      var j :| 0 <= j < |bs| && bs[j] == b;
      assert marked[j] == b;
    }
    forall b | b in Allocated(marked) ensures b in Allocated(bs) && b.Payload() != p {
      var j :| 0 <= j < |marked| && marked[j] == b;
      if b.Payload() == p {
        SameAddressSameIndex(bs, 0, HEAP_SIZE, i, j);
      }
    }
  }

  lemma FreeUndoesNew(bs: seq<Block>, bs': seq<Block>, b: Block, p: nat, n: nat)
    requires Canonical(bs) && Canonical(bs') && NewBlock(bs, bs', b, p, n)
    ensures Live(bs', p) && Free(bs', p) == bs
  {
    assert b in Allocated(bs');
    FreeKeeps(bs', p);
    forall c | c in Allocated(bs) ensures c.Payload() != p {
      assert c in Allocated(bs');
      if c.Payload() == p {
        OneBlockPerPointer(bs', b, c);
      }
    }
    assert Allocated(Free(bs', p)) == Allocated(bs);
    CanonicalUnique(Free(bs', p), bs);
  }

  /** Freeing what was just allocated restores the block list exactly. */
  lemma FreeUndoesMalloc(bs: seq<Block>, size: nat)
    requires Canonical(bs) && size < WORD
    ensures var (bs', p) := Malloc(bs, size);
            p.Some? ==> Live(bs', p.value) && Free(bs', p.value) == bs
  {
    MallocKeeps(bs, size);
    var (bs', p) := Malloc(bs, size);
    if p.Some? {
      var b :| NewBlock(bs, bs', b, p.value, AlignUp(size));
      FreeUndoesNew(bs, bs', b, p.value, AlignUp(size));
    }
  }

  lemma OneBlockPerPointer(bs: seq<Block>, b: Block, c: Block)
    requires Tiles(bs) && b in bs && c in bs && b.addr == c.addr
    ensures b == c
  {
    var i :| 0 <= i < |bs| && bs[i] == b;
    var j :| 0 <= j < |bs| && bs[j] == c;
    SameAddressSameIndex(bs, 0, HEAP_SIZE, i, j);
  }

  function FreeAll(bs: seq<Block>, ps: seq<nat>): seq<Block>
    requires Canonical(bs) && Distinct(ps) && forall p :: p in ps ==> Live(bs, p)
    decreases ps
  {
    if ps == [] then bs else
      FreeKeeps(bs, ps[0]);
      assert forall p :: p in ps[1..] ==> Live(Free(bs, ps[0]), p) by { StillLive(bs, ps); }
      FreeAll(Free(bs, ps[0]), ps[1..])
  }

  lemma StillLive(bs: seq<Block>, ps: seq<nat>)
    requires Canonical(bs) && ps != [] && Distinct(ps) && forall p :: p in ps ==> Live(bs, p)
    ensures forall p :: p in ps[1..] ==> Live(Free(bs, ps[0]), p)
  {
    FreeKeeps(bs, ps[0]);
    forall p | p in ps[1..] ensures Live(Free(bs, ps[0]), p) {
      assert p in ps;
      var b :| b in bs && !b.free && b.Payload() == p;
      var k :| 0 <= k < |ps| - 1 && ps[1..][k] == p;
      assert ps[k + 1] == p && ps[0] != p;
      assert b in Allocated(Free(bs, ps[0]));
    }
  }

  lemma {:induction false} FreeAllKeeps(bs: seq<Block>, ps: seq<nat>)
    requires Canonical(bs) && Distinct(ps) && forall p :: p in ps ==> Live(bs, p)
    ensures Canonical(FreeAll(bs, ps))
    ensures Allocated(FreeAll(bs, ps)) == set b | b in Allocated(bs) && b.Payload() !in ps
    decreases ps
  {
    if ps != [] {
      FreeKeeps(bs, ps[0]);
      StillLive(bs, ps);
      FreeAllKeeps(Free(bs, ps[0]), ps[1..]);
      assert ps == [ps[0]] + ps[1..];
    }
  }

  /** The list left by a set of frees does not depend on their order. */
  lemma FreeOrderIrrelevant(bs: seq<Block>, ps: seq<nat>, qs: seq<nat>)
    requires Canonical(bs) && Distinct(ps) && forall p :: p in ps ==> Live(bs, p)
    requires Distinct(qs) && forall p :: p in ps <==> p in qs
    ensures FreeAll(bs, ps) == FreeAll(bs, qs)
  {
    FreeAllKeeps(bs, ps);
    FreeAllKeeps(bs, qs);
    CanonicalUnique(FreeAll(bs, ps), FreeAll(bs, qs));
  }

  /** Freeing every live pointer, in any order, gives back the single block of a fresh heap. */
  lemma FreeEverything(bs: seq<Block>, ps: seq<nat>)
    requires Canonical(bs) && Distinct(ps) && forall p :: p in ps <==> Live(bs, p)
    ensures FreeAll(bs, ps) == Initial
  {
    FreeAllKeeps(bs, ps);
    CanonicalUnique(FreeAll(bs, ps), Initial);
  }

  // ----- runs

  datatype Op = Kmalloc(size: nat) | Kfree(p: nat)

  /** The block list together with the request behind every live pointer. */
  datatype State = State(blocks: seq<Block>, live: map<nat, nat>)

  const Booted: State := State(Initial, map[])

  predicate Legal(s: State, op: Op) {
    match op
    case Kmalloc(size) => size < WORD
    case Kfree(p) => p in s.live && Live(s.blocks, p)
  }

  function Step(s: State, op: Op): State
    requires Legal(s, op)
  {
    match op
    case Kmalloc(size) =>
      var (bs, p) := Malloc(s.blocks, size);
      if p == None then s else State(bs, s.live[p.value := size])
    case Kfree(p) => State(Free(s.blocks, p), s.live - {p})
  }

  /** Large enough for the request, unless that wrapped, and never 20 bytes or more larger than the rounded one. */
  predicate SizedFor(b: Block, size: nat) {
    (size <= MAX_REQUEST ==> b.size >= size) && b.size < AlignUp(size) + HEADER + 8
  }

  ghost predicate Inv(s: State) {
    && Canonical(s.blocks)
    && (forall b :: b in Allocated(s.blocks) ==>
          b.Payload() in s.live && SizedFor(b, s.live[b.Payload()]))
    && (forall p :: p in s.live ==> Live(s.blocks, p))
  }

  lemma NewBlockKeepsInv(s: State, bs: seq<Block>, b: Block, p: nat, size: nat)
    requires Inv(s) && Canonical(bs) && NewBlock(s.blocks, bs, b, p, AlignUp(size))
    requires SizedFor(b, size)
    ensures Inv(State(bs, s.live[p := size]))
  {
    assert b in Allocated(bs);
    forall c | c in Allocated(s.blocks) ensures c.Payload() != p {
      assert c in Allocated(bs);
      if c.Payload() == p {
        OneBlockPerPointer(bs, b, c);
      }
    }
    forall q | q in s.live[p := size] ensures Live(bs, q) {
      if q != p {
        var c :| c in s.blocks && !c.free && c.Payload() == q;
        assert c in Allocated(bs);
      }
    }
  }

  lemma StepKeepsInv(s: State, op: Op)
    requires Inv(s) && Legal(s, op)
    ensures Inv(Step(s, op))
  {
    match op
    case Kmalloc(size) =>
      MallocKeeps(s.blocks, size);
      AlignUpCovers(size);
      var (bs, p) := Malloc(s.blocks, size);
      if p.Some? {
        var b :| NewBlock(s.blocks, bs, b, p.value, AlignUp(size)) && b.size < AlignUp(size) + HEADER + 8;
        NewBlockKeepsInv(s, bs, b, p.value, size);
      }
    case Kfree(p) =>
      FreeKeeps(s.blocks, p);
      forall q | q in s.live && q != p ensures Live(Free(s.blocks, p), q) {
        var c :| c in s.blocks && !c.free && c.Payload() == q;
        assert c in Allocated(Free(s.blocks, p));
      }
  }

  /** Every state of the run starting at s is reached by legal calls. */
  ghost predicate LegalRun(s: State, ops: seq<Op>)
    decreases ops
  {
    ops == [] || (Legal(s, ops[0]) && LegalRun(Step(s, ops[0]), ops[1..]))
  }

  ghost function Run(s: State, ops: seq<Op>): State
    requires LegalRun(s, ops)
    decreases ops
  {
    if ops == [] then s else Run(Step(s, ops[0]), ops[1..])
  }

  /** The canonical invariant holds after every run of kmalloc and kfree of live pointers. */
  lemma {:induction false} RunKeepsInv(s: State, ops: seq<Op>)
    requires Inv(s) && LegalRun(s, ops)
    ensures Inv(Run(s, ops))
    decreases ops
  {
    if ops != [] {
      StepKeepsInv(s, ops[0]);
      RunKeepsInv(Step(s, ops[0]), ops[1..]);
    }
  }

  lemma Apart(bs: seq<Block>, i: nat, k: nat)
    requires Tiles(bs) && i < |bs| && k < |bs| && i != k
    ensures bs[i].End() <= bs[k].addr || bs[k].End() <= bs[i].addr
  {
    if i < k { Ordered(bs, 0, HEAP_SIZE, i, k); } else { Ordered(bs, 0, HEAP_SIZE, k, i); }
  }

  /** Block i lies inside the heap and overlaps no other block, header or payload. */
  predicate Isolated(bs: seq<Block>, i: nat)
    requires i < |bs|
  {
    && HEADER <= bs[i].Payload() && bs[i].End() <= HEAP_SIZE && bs[i].Payload() % 4 == 0
    && forall k :: 0 <= k < |bs| && k != i ==> bs[i].End() <= bs[k].addr || bs[k].End() <= bs[i].addr
  }

  lemma TilesIsolates(bs: seq<Block>, i: nat)
    requires Tiles(bs) && Aligned(bs) && i < |bs|
    ensures Isolated(bs, i)
  {
    assert WordAligned(bs[i]);
    EndsInside(bs, i);
    forall k | 0 <= k < |bs| && k != i ensures bs[i].End() <= bs[k].addr || bs[k].End() <= bs[i].addr {
      Apart(bs, i, k);
    }
  }

  /** The block behind a live pointer: allocated, isolated, as large as was asked for, and not much larger. */
  predicate Owned(s: State, p: nat) {
    && p in s.live && Live(s.blocks, p)
    && var i := IndexOf(s.blocks, p);
    && Isolated(s.blocks, i)
    && SizedFor(s.blocks[i], s.live[p])
  }

  lemma InvOwns(s: State, p: nat)
    requires Inv(s) && p in s.live
    ensures Owned(s, p)
  {
    var i := IndexOf(s.blocks, p);
    assert s.blocks[i] in Allocated(s.blocks);
    TilesIsolates(s.blocks, i);
  }

  /** After any run from boot, every live pointer owns an isolated block of at least the requested
      size, and less than 20 bytes more, so live payloads are disjoint from one another and from every header. */
  lemma RunSeparatesPayloads(ops: seq<Op>)
    requires LegalRun(Booted, ops)
    ensures var s := Run(Booted, ops); forall p :: p in s.live ==> Owned(s, p)
  {
    RunKeepsInv(Booted, ops);
    var s := Run(Booted, ops);
    forall p | p in s.live ensures Owned(s, p) {
      InvOwns(s, p);
    }
  }
}

/** The heap as the kernel keeps it: headers stored inside the array and linked by address. */
module Heap {
  import opened Words
  import opened HeapSpec

  datatype Header = Header(size: nat, isFree: bool, next: Ptr)

  function Next(bs: seq<Block>, i: nat): Ptr
    requires i < |bs|
  {
    if i + 1 < |bs| then Some(bs[i + 1].addr) else None
  }

  ghost predicate HeaderAt(headers: map<nat, Header>, bs: seq<Block>, i: nat)
    requires i < |bs|
  {
    bs[i].addr in headers && headers[bs[i].addr] == Header(bs[i].size, bs[i].free, Next(bs, i))
  }

  /** The headers in memory spell out the list bs. */
  ghost predicate Chains(headers: map<nat, Header>, bs: seq<Block>) {
    forall i :: 0 <= i < |bs| ==> HeaderAt(headers, bs, i)
  }

  /** Headers other than those of blocks i and i + 1 are untouched by a split of block i. */
  lemma SplitChains(headers: map<nat, Header>, bs: seq<Block>, i: nat, n: nat)
    requires Tiles(bs) && Chains(headers, bs) && i < |bs| && bs[i].Fits(n) && bs[i].size >= n + HEADER + 8
    ensures var rest := bs[i].addr + HEADER + n;
            Chains(headers[rest := Header(bs[i].size - n - HEADER, true, Next(bs, i))]
                   [bs[i].addr := Header(n, true, Some(rest))], Split(bs, i, n))
  {
    SplitTiles(bs, i, n);
    var r := Split(bs, i, n);
    var rest := bs[i].addr + HEADER + n;
    var headers' := headers[rest := Header(bs[i].size - n - HEADER, true, Next(bs, i))]
                    [bs[i].addr := Header(n, true, Some(rest))];
    assert HeaderAt(headers, bs, i);
    forall k | 0 <= k < |r| ensures HeaderAt(headers', r, k) {
      if k != i && k != i + 1 {
        Apart(r, k, i);
        Apart(r, k, i + 1);
        assert HeaderAt(headers, bs, if k < i then k else k - 1);
      }
    }
  }

  lemma MarkChains(headers: map<nat, Header>, bs: seq<Block>, i: nat, isFree: bool)
    requires Tiles(bs) && Chains(headers, bs) && i < |bs|
    ensures HeaderAt(headers, bs, i)
    ensures var r := bs[i := bs[i].(free := isFree)];
            Tiles(r) && Chains(headers[bs[i].addr := headers[bs[i].addr].(isFree := isFree)], r)
  {
    assert HeaderAt(headers, bs, i);
    var r := bs[i := bs[i].(free := isFree)];
    forall k | 0 <= k < |bs| - 1 ensures Adjacent(r, k) {
      assert Adjacent(bs, k);
    }
    var headers' := headers[bs[i].addr := headers[bs[i].addr].(isFree := isFree)];
    forall k | 0 <= k < |r| ensures HeaderAt(headers', r, k) {
      if k != i { Apart(bs, k, i); }
      assert HeaderAt(headers, bs, k);
    }
  }

  lemma MergeAt(bs: seq<Block>, k: nat)
    requires Tiles(bs) && k + 1 < |bs|
    ensures var r := bs[..k] + MergeHead(bs[k..]);
            && Tiles(r) && r[k..] == MergeHead(bs[k..]) && r[..k] == bs[..k] && |r| == |bs| - 1
            && r[k] == bs[k].(size := bs[k].size + HEADER + bs[k + 1].size)
            && (forall i :: 0 <= i < k ==> r[i] == bs[i])
            && (forall i :: k < i < |r| ==> r[i] == bs[i + 1])
  {
    var r := bs[..k] + MergeHead(bs[k..]);
    assert Adjacent(bs, k);
    forall i | 0 <= i < |r| - 1 ensures Adjacent(r, i) {
      assert Adjacent(bs, if i < k then i else i + 1);
    }
  }

  /** Merging block k with its successor rewrites the header of block k only. */
  lemma MergeChains(headers: map<nat, Header>, bs: seq<Block>, k: nat, r: seq<Block>)
    requires Tiles(bs) && Chains(headers, bs) && k + 1 < |bs| && |r| == |bs| - 1
    requires r[k] == bs[k].(size := bs[k].size + HEADER + bs[k + 1].size)
    requires forall i :: 0 <= i < k ==> r[i] == bs[i]
    requires forall i :: k < i < |r| ==> r[i] == bs[i + 1]
    ensures Chains(headers[bs[k].addr := Header(r[k].size, bs[k].free, Next(bs, k + 1))], r)
  {
    var headers' := headers[bs[k].addr := Header(r[k].size, bs[k].free, Next(bs, k + 1))];
    forall i | 0 <= i < |r| ensures HeaderAt(headers', r, i) {
      var was := if i <= k then i else i + 1;
      if was != k { Apart(bs, was, k); }
      assert HeaderAt(headers, bs, was);
    }
  }

  lemma FirstFitFrom(bs: seq<Block>, n: nat, i: nat)
    requires i < |bs| && FirstFit(bs, n) == i + FirstFit(bs[i..], n)
    ensures bs[i].Fits(n) ==> FirstFit(bs, n) == i
    ensures !bs[i].Fits(n) ==> FirstFit(bs, n) == i + 1 + FirstFit(bs[i + 1..], n)
  {
    assert bs[i..][1..] == bs[i + 1..];
  }

  predicate Mergeable(bs: seq<Block>, k: nat)
    requires k + 1 < |bs|
  {
    bs[k].free && bs[k + 1].free && bs[k].End() == bs[k + 1].addr
  }

  lemma CoalesceFrom(bs: seq<Block>, k: nat)
    requires k < |bs|
    ensures k + 1 == |bs| ==> Coalesce(bs[k..]) == bs[k..]
    ensures k + 1 < |bs| && Mergeable(bs, k) ==> Coalesce(bs[k..]) == Coalesce(MergeHead(bs[k..]))
    ensures k + 1 < |bs| && !Mergeable(bs, k) ==>
              bs[..k] + Coalesce(bs[k..]) == bs[..k + 1] + Coalesce(bs[k + 1..])
  {
    if k + 1 < |bs| {
      assert bs[k..][1..] == bs[k + 1..];
    }
  }

  class Heap {
    var head: Ptr
    var headers: map<nat, Header>
    ghost var blocks: seq<Block>

    ghost predicate Linked()
      reads this
    {
      Tiles(blocks) && head == Some(0) && Chains(headers, blocks)
    }

    ghost predicate Valid()
      reads this
    {
      Linked() && Canonical(blocks)
    }

    constructor ()
      ensures Valid() && blocks == Initial
    {
      head := Some(0);
      headers := map[0 := Header(HEAP_SIZE - HEADER, true, None)];
      blocks := Initial;
      assert HeaderAt(map[0 := Header(HEAP_SIZE - HEADER, true, None)], Initial, 0);
    }

    method SplitBlock(block: nat, n: nat, ghost i: nat)
      requires Linked() && i < |blocks| && blocks[i].addr == block && blocks[i].Fits(n)
      modifies this
      ensures Linked() && blocks == Split(old(blocks), i, n)
    {
      SplitTiles(blocks, i, n);
      assert HeaderAt(headers, blocks, i);
      var h := headers[block];
      if h.size < n + HEADER + 8 {
        return;
      }
      SplitChains(headers, blocks, i, n);
      var rest := block + HEADER + n;
      headers := headers[rest := Header(h.size - n - HEADER, true, h.next)];
      headers := headers[block := Header(n, h.isFree, Some(rest))];
      blocks := Split(blocks, i, n);
    }

    method SetFree(block: nat, isFree: bool, ghost i: nat)
      requires Linked() && i < |blocks| && blocks[i].addr == block
      modifies this
      ensures Linked() && blocks == old(blocks)[i := old(blocks)[i].(free := isFree)]
    {
      MarkChains(headers, blocks, i, isFree);
      headers := headers[block := headers[block].(isFree := isFree)];
      blocks := blocks[i := blocks[i].(free := isFree)];
    }

    method Kmalloc(size: nat) returns (p: Ptr)
      requires Valid() && size < WORD
      modifies this
      ensures Valid() && (blocks, p) == Malloc(old(blocks), size)
    {
      var n := AlignUp(size);
      var block := head;
      ghost var i := 0;
      while block.Some?
        invariant blocks == old(blocks) && headers == old(headers) && head == old(head) && i <= |blocks|
        invariant block == if i < |blocks| then Some(blocks[i].addr) else None
        invariant FirstFit(blocks, n) == i + FirstFit(blocks[i..], n)
        decreases |blocks| - i
      {
        assert HeaderAt(headers, blocks, i);
        FirstFitFrom(blocks, n, i);
        var h := headers[block.value];
        if h.isFree && h.size >= n {
          MallocKeeps(blocks, size);
          SplitBlock(block.value, n, i);
          SetFree(block.value, false, i);
          return Some(block.value + HEADER);
        }
        block := h.next;
        i := i + 1;
      }
      return None;
    }

    method MergeNext(block: nat, ghost k: nat)
      requires Linked() && k + 1 < |blocks| && block == blocks[k].addr && Mergeable(blocks, k)
      modifies this
      ensures Linked() && blocks == old(blocks[..k] + MergeHead(blocks[k..]))
    {
      assert HeaderAt(headers, blocks, k) && HeaderAt(headers, blocks, k + 1);
      MergeAt(blocks, k);
      ghost var merged := blocks[..k] + MergeHead(blocks[k..]);
      MergeChains(headers, blocks, k, merged);
      var h := headers[block];
      var n := headers[h.next.value];
      headers := headers[block := Header(h.size + HEADER + n.size, h.isFree, n.next)];
      blocks := merged;
    }

    method CoalesceFreeBlocks()
      requires Linked()
      modifies this
      ensures Linked() && blocks == Coalesce(old(blocks))
    {
      var block := head;
      ghost var k := 0;
      assert HeaderAt(headers, blocks, 0);
      while block.Some? && headers[block.value].next.Some?
        invariant Linked() && k < |blocks| && block == Some(blocks[k].addr)
        invariant Coalesce(old(blocks)) == blocks[..k] + Coalesce(blocks[k..])
        invariant HeaderAt(headers, blocks, k)
        decreases |blocks| - k
      {
        assert HeaderAt(headers, blocks, k + 1);
        CoalesceFrom(blocks, k);
        var h := headers[block.value];
        var n := headers[h.next.value];
        if h.isFree && n.isFree && block.value + HEADER + h.size == h.next.value {
          MergeAt(blocks, k);
          MergeNext(block.value, k);
          assert HeaderAt(headers, blocks, k);
        } else {
          block := h.next;
          k := k + 1;
        }
      }
      CoalesceFrom(blocks, k);
    }

    method Kfree(p: nat)
      requires Valid() && Live(blocks, p)
      modifies this
      ensures Valid() && blocks == Free(old(blocks), p)
    {
      FreeKeeps(blocks, p);
      SetFree(p - HEADER, true, IndexOf(blocks, p));
      CoalesceFreeBlocks();
    }
  }
}
