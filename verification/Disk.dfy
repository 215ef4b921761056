/** Disk transfers: the flat sector view, and the driver that moves at most eight sectors at a time through
    a fixed buffer. */
module DiskSpec {
  import opened Words

  const SECTOR: nat := 512
  const DMA_SECTORS: nat := 8
  const LBA28: nat := 0x1000_0000

  type Sectors = seq<seq<Byte>>

  /** Size of n sectors. */
  function Bytes(n: nat): nat { n * 512 }

  predicate Formatted(d: Sectors) {
    |d| <= LBA28 && forall i :: 0 <= i < |d| ==> |d[i]| == SECTOR
  }

  // ----- the address registers

  datatype LbaRegs = LbaRegs(low: nat, mid: nat, high: nat, drive: nat)

  /** What ata_dma_transfer and ata_set_lba28 write to the four registers: three bytes, and four bits under
      the drive-select bits 0xe0. */
  function RegsOf(lba: nat): LbaRegs {
    LbaRegs(lba % 256, lba / 256 % 256, lba / 65536 % 256, 0xe0 + lba / 0x100_0000 % 16)
  }

  /** The sector the device addresses. */
  function Addressed(r: LbaRegs): nat {
    r.low + 256 * r.mid + 65536 * r.high + 0x100_0000 * (r.drive % 16)
  }

  /** The registers carry the address exactly when it fits in 28 bits. */
  lemma RegsCarryLba(lba: nat)
    ensures Addressed(RegsOf(lba)) == lba % LBA28
    ensures Addressed(RegsOf(lba)) == lba <==> lba < LBA28
  {
    DriveBits(lba / 0x100_0000 % 16);
    Digits(lba);
    BelowLimit(lba);
  }

  lemma BelowLimit(x: nat)
    ensures x % LBA28 == x <==> x < LBA28
  {
  }

  lemma DriveBits(y: nat)
    requires y < 16
    ensures (0xe0 + y) % 16 == y
  {
  }

  lemma Digits(x: nat)
    ensures x % 256 + 256 * (x / 256 % 256) + 65536 * (x / 65536 % 256) + 0x100_0000 * (x / 0x100_0000 % 16)
         == x % LBA28
  {
    var a := x / 256;
    var b := a / 256;
    var c := b / 256;
    assert b == x / 65536;
    assert c == x / 0x100_0000;
    assert c / 16 == x / LBA28;
  }

  // ----- flat slices

  /** The bytes of n sectors from lba. */
  function Flat(d: Sectors, lba: nat, n: nat): (r: seq<Byte>)
    requires Formatted(d) && lba + n <= |d|
    ensures |r| == Bytes(n)
    decreases n
  {
    if n == 0 then [] else d[lba] + Flat(d, lba + 1, n - 1)
  }

  lemma {:induction false} FlatAppend(d: Sectors, lba: nat, a: nat, b: nat)
    requires Formatted(d) && lba + a + b <= |d|
    ensures Flat(d, lba, a + b) == Flat(d, lba, a) + Flat(d, lba + a, b)
    decreases a
  {
    if a == 0 {
      assert Flat(d, lba, 0) + Flat(d, lba, b) == Flat(d, lba, b);
    } else {
      FlatAppend(d, lba + 1, a - 1, b);
      assert Flat(d, lba, a) + Flat(d, lba + a, b) == d[lba] + (Flat(d, lba + 1, a - 1) + Flat(d, lba + a, b));
    }
  }

  /** Which byte of which sector each byte of a slice is. */
  lemma {:induction false} FlatByte(d: Sectors, lba: nat, n: nat, i: nat)
    requires Formatted(d) && lba + n <= |d| && i < Bytes(n)
    ensures lba + i / 512 < |d| && Flat(d, lba, n)[i] == d[lba + i / 512][i % 512]
    decreases n
  {
    if i >= 512 {
      FlatByte(d, lba + 1, n - 1, i - 512);
      assert (i - 512) / 512 == i / 512 - 1 && (i - 512) % 512 == i % 512;
    }
  }

  /** The disk with n sectors from lba replaced by the data. */
  function Patch(d: Sectors, lba: nat, n: nat, data: seq<Byte>): (r: Sectors)
    requires Formatted(d) && |data| == Bytes(n) && lba + n <= |d|
    ensures Formatted(r) && |r| == |d|
    ensures forall i :: 0 <= i < |d| && !(lba <= i < lba + n) ==> r[i] == d[i]
    decreases n
  {
    if n == 0 then d else Patch(d[lba := data[..SECTOR]], lba + 1, n - 1, data[SECTOR..])
  }

  /** Reading back what was written gives the same bytes. */
  lemma {:induction false} ReadAfterWrite(d: Sectors, lba: nat, n: nat, data: seq<Byte>)
    requires Formatted(d) && |data| == Bytes(n) && lba + n <= |d|
    ensures Flat(Patch(d, lba, n, data), lba, n) == data
    decreases n
  {
    if n > 0 {
      var d1, rest := d[lba := data[..SECTOR]], data[SECTOR..];
      ReadAfterWrite(d1, lba + 1, n - 1, rest);
      assert Patch(d, lba, n, data)[lba] == d1[lba];
      assert data == data[..SECTOR] + rest;
    }
  }

  lemma {:induction false} PatchAppend(d: Sectors, lba: nat, n: nat, a: seq<Byte>, k: nat, b: seq<Byte>)
    requires Formatted(d) && |a| == Bytes(n) && |b| == Bytes(k) && lba + n + k <= |d|
    ensures Patch(d, lba, n + k, a + b) == Patch(Patch(d, lba, n, a), lba + n, k, b)
    decreases n
  {
    if n == 0 {
      assert a + b == b;
    } else {
      PatchAppend(d[lba := a[..SECTOR]], lba + 1, n - 1, a[SECTOR..], k, b);
      assert (a + b)[..SECTOR] == a[..SECTOR] && (a + b)[SECTOR..] == a[SECTOR..] + b;
    }
  }
}

/** The driver. */
module DiskDriver {
  import opened Words
  import opened DiskSpec

  /** memcpy of n bytes between two buffers. */
  method Copy(dst: array<Byte>, at: nat, src: array<Byte>, from: nat, n: nat)
    requires at + n <= dst.Length && from + n <= src.Length && dst != src
    modifies dst
    ensures dst[..] == old(dst[..at]) + src[from..from + n] + old(dst[at + n..])
  {
    ghost var before := dst[..];
    for i := 0 to n
      invariant dst[..at] == before[..at] && dst[at + i..] == before[at + i..]
      invariant dst[at..at + i] == src[from..from + i]
    {
      dst[at + i] := src[from + i];
      assert dst[at + i + 1..] == before[at + i..][1..];
    }
    assert dst[..] == dst[..at] + dst[at..at + n] + dst[at + n..];
  }

  /** From position k on, b is a. */
  predicate SameFrom(a: seq<Byte>, b: seq<Byte>, k: nat) {
    |a| == |b| && forall i :: k <= i < |a| ==> a[i] == b[i]
  }

  lemma SameFromTrans(a: seq<Byte>, b: seq<Byte>, c: seq<Byte>, k: nat, n: nat)
    requires SameFrom(a, b, n) && SameFrom(b, c, k) && k <= n
    ensures SameFrom(a, c, n)
  {
  }

  /** Outside the n sectors from lba, r is d. */
  predicate SameOutside(d: Sectors, r: Sectors, lba: nat, n: nat) {
    |r| == |d| && forall i :: 0 <= i < |d| && !(lba <= i < lba + n) ==> r[i] == d[i]
  }

  lemma SameOutsideTrans(d: Sectors, r: Sectors, q: Sectors, lba: nat, n: nat, at: nat, k: nat)
    requires SameOutside(d, r, lba, n) && SameOutside(r, q, at, k) && lba <= at && at + k <= lba + n
    ensures SameOutside(d, q, lba, n)
  {
  }

  class Disk {
    var sectors: Sectors
    const dma: array<Byte>

    /** Whether every transfer of existing sectors succeeds. */
    const healthy: bool

    ghost predicate Valid()
      reads this
    {
      Formatted(sectors) && dma.Length == DMA_SECTORS * SECTOR
    }

    method FillDma(data: seq<Byte>)
      requires |data| <= dma.Length
      modifies dma
      ensures dma[..|data|] == data
    {
      for i := 0 to |data|
        invariant dma[..i] == data[..i]
      {
        dma[i] := data[i];
      }
    }

    /** The device's side of a write: it may stop after some of the sectors. */
    method Accept(at: nat, n: nat) returns (ok: bool)
      requires Valid() && n <= DMA_SECTORS && at + n <= |sectors|
      modifies this`sectors
      ensures Valid() && |sectors| == |old(sectors)|
      ensures healthy ==> ok
      ensures ok ==> sectors == Patch(old(sectors), at, n, dma[..Bytes(n)])
      ensures SameOutside(old(sectors), sectors, at, n)
    {
      var reached: nat :| reached <= n && (healthy ==> reached == n);
      sectors := Patch(sectors, at, reached, dma[..Bytes(reached)]);
      return reached == n;
    }

    constructor (sectors: Sectors, healthy: bool)
      requires Formatted(sectors)
      ensures Valid() && this.sectors == sectors && this.healthy == healthy && fresh(dma)
    {
      this.sectors := sectors;
      this.healthy := healthy;
      dma := new Byte[4096];
    }

    /** ata_dma_transfer. The device may fail at any time; a failed write may have reached some of its
        sectors. */
    method DmaTransfer(lba: nat, n: nat, isWrite: bool) returns (ok: bool)
      requires Valid()
      modifies this`sectors, dma
      ensures Valid() && |sectors| == |old(sectors)|
      ensures if isWrite then dma[..] == old(dma[..]) else sectors == old(sectors)
      ensures healthy && 0 < n <= DMA_SECTORS && lba % LBA28 + n <= |sectors| ==> ok
      ensures ok ==> 0 < n <= DMA_SECTORS && lba % LBA28 + n <= |sectors|
      ensures ok && !isWrite ==> dma[..Bytes(n)] == Flat(sectors, lba % LBA28, n)
      ensures ok && isWrite ==> sectors == Patch(old(sectors), lba % LBA28, n, dma[..Bytes(n)])
      ensures SameOutside(old(sectors), sectors, lba % LBA28, n)
    {
      if n == 0 || n > DMA_SECTORS {
        return false;
      }
      RegsCarryLba(lba);
      var at := Addressed(RegsOf(lba));
      var responds: bool := *;
      if !(responds || healthy) || at + n > |sectors| {
        return false;
      }
      if isWrite {
        ok := Accept(at, n);
      } else {
        FillDma(Flat(sectors, at, n));
        ok := true;
      }
    }

    /** One round of disk_read: a transfer and the copy out of the DMA buffer. */
    method ReadChunk(lba: nat, buffer: array<Byte>, out: nat, n: nat) returns (ok: bool)
      requires Valid() && lba < LBA28 && n <= DMA_SECTORS && out + Bytes(n) <= buffer.Length && buffer != dma
      modifies this`sectors, dma, buffer
      ensures Valid() && sectors == old(sectors)
      ensures SameFrom(old(buffer[..]), buffer[..], out + Bytes(n))
      ensures healthy && 0 < n && lba + n <= |sectors| ==> ok
      ensures ok ==> lba + n <= |sectors| && buffer[..out + Bytes(n)] == old(buffer[..out]) + Flat(sectors, lba, n)
    {
      ok := DmaTransfer(lba, n, false);
      if ok {
        ghost var before := buffer[..];
        Copy(buffer, out, dma, 0, Bytes(n));
        assert buffer[..] == before[..out] + Flat(sectors, lba, n) + before[out + Bytes(n)..];
      }
    }

    /** The round after some sectors, seen from the whole transfer. */
    method ReadNext(lba: nat, current: nat, buffer: array<Byte>, out: nat, chunk: nat) returns (ok: bool)
      requires Valid() && lba <= current < LBA28 && 0 < chunk <= DMA_SECTORS && out == Bytes(current - lba)
      requires out + Bytes(chunk) <= buffer.Length && buffer != dma
      requires Holds(sectors, lba, current - lba, buffer[..out])
      modifies this`sectors, dma, buffer
      ensures Valid() && sectors == old(sectors)
      ensures healthy && current + chunk <= |sectors| ==> ok
      ensures SameFrom(old(buffer[..]), buffer[..], out + Bytes(chunk))
      ensures ok ==> Holds(sectors, lba, current + chunk - lba, buffer[..out + Bytes(chunk)])
    {
      ghost var got := buffer[..out];
      ok := ReadChunk(current, buffer, out, chunk);
      if ok {
        HoldsMore(sectors, lba, current - lba, got, chunk);
      }
    }

    /** disk_read: fills the buffer with the flat slice of n sectors, eight at a time. */
    method Read(lba: nat, buffer: array<Byte>, n: nat) returns (ok: bool)
      requires Valid() && n < 256 && lba + n <= LBA28 && Bytes(n) <= buffer.Length && buffer != dma
      modifies this`sectors, dma, buffer
      ensures Valid() && sectors == old(sectors) && (n == 0 ==> ok)
      ensures healthy && lba + n <= |sectors| ==> ok
      ensures SameFrom(old(buffer[..]), buffer[..], Bytes(n))
      ensures ok && n > 0 ==> lba + n <= |sectors| && buffer[..Bytes(n)] == Flat(sectors, lba, n)
    {
      ghost var d, start, done := sectors, buffer[..], 0;
      var current, out, remaining: nat := lba, 0, n;
      while remaining > 0
        invariant Valid() && sectors == d && done + remaining == n
        invariant current == lba + done && out == Bytes(done) && out + Bytes(remaining) == Bytes(n)
        invariant SameFrom(start, buffer[..], Bytes(n))
        invariant Holds(d, lba, done, buffer[..out])
      {
        var chunk := if remaining > DMA_SECTORS then DMA_SECTORS else remaining;
        BytesSplit(chunk, remaining);
        ghost var before := buffer[..];
        var ok := ReadNext(lba, current, buffer, out, chunk);
        SameFromTrans(start, before, buffer[..], out + Bytes(chunk), Bytes(n));
        if !ok {
          return false;
        }
        current, out, remaining := current + chunk, out + Bytes(chunk), remaining - chunk;
        done := done + chunk;
      }
      return true;
    }

    /** One round of disk_write: the copy into the DMA buffer and a transfer. */
    method WriteChunk(lba: nat, buffer: array<Byte>, at: nat, n: nat) returns (ok: bool)
      requires Valid() && lba < LBA28 && n <= DMA_SECTORS && at + Bytes(n) <= buffer.Length && buffer != dma
      modifies this`sectors, dma
      ensures Valid() && |sectors| == |old(sectors)|
      ensures healthy && 0 < n && lba + n <= |sectors| ==> ok
      ensures ok ==> lba + n <= |sectors| && sectors == Patch(old(sectors), lba, n, buffer[at..at + Bytes(n)])
      ensures SameOutside(old(sectors), sectors, lba, n)
    {
      Copy(dma, 0, buffer, at, Bytes(n));
      assert dma[..Bytes(n)] == buffer[at..at + Bytes(n)];
      ok := DmaTransfer(lba, n, true);
    }

    /** The round after n sectors, seen from the whole transfer. */
    method WriteNext(lba: nat, current: nat, buffer: array<Byte>, at: nat, chunk: nat, ghost d: Sectors)
      returns (ok: bool)
      requires Valid() && lba <= current < LBA28 && 0 < chunk <= DMA_SECTORS && at == Bytes(current - lba)
      requires at + Bytes(chunk) <= buffer.Length && buffer != dma && Formatted(d) && |d| == |sectors|
      requires Patched(d, sectors, lba, current - lba, buffer[..at])
      modifies this`sectors, dma
      ensures Valid() && |sectors| == |d|
      ensures healthy && current + chunk <= |d| ==> ok
      ensures SameOutside(old(sectors), sectors, current, chunk)
      ensures ok ==> Patched(d, sectors, lba, current + chunk - lba, buffer[..at + Bytes(chunk)])
    {
      ghost var before, n := sectors, current - lba;
      ok := WriteChunk(current, buffer, at, chunk);
      if ok {
        PatchedMore(d, before, lba, n, buffer[..at], chunk, buffer[at..at + Bytes(chunk)]);
        assert buffer[..at + Bytes(chunk)] == buffer[..at] + buffer[at..at + Bytes(chunk)];
      }
    }

    /** disk_write: on success changes exactly the slice of n sectors to the buffer's bytes; a failed write
        touches no sector outside the slice. */
    method Write(lba: nat, buffer: array<Byte>, n: nat) returns (ok: bool)
      requires Valid() && n < 256 && lba + n <= LBA28 && Bytes(n) <= buffer.Length && buffer != dma
      modifies this`sectors, dma
      ensures Valid() && |sectors| == |old(sectors)| && (n == 0 ==> ok && sectors == old(sectors))
      ensures healthy && lba + n <= |sectors| ==> ok
      ensures ok && n > 0 ==> lba + n <= |sectors| && sectors == Patch(old(sectors), lba, n, buffer[..Bytes(n)])
      ensures SameOutside(old(sectors), sectors, lba, n)
    {
      ghost var d := sectors;
      var current, at, remaining: nat := lba, 0, n;
      while remaining > 0
        invariant Valid() && |sectors| == |d| && remaining <= n
        invariant current == lba + (n - remaining) && at == Bytes(n - remaining) && at + Bytes(remaining) == Bytes(n)
        invariant Patched(d, sectors, lba, n - remaining, buffer[..at])
        invariant SameOutside(d, sectors, lba, n)
      {
        var chunk := if remaining > DMA_SECTORS then DMA_SECTORS else remaining;
        assert Bytes(remaining) == Bytes(chunk) + Bytes(remaining - chunk);
        ghost var before := sectors;
        var done := WriteNext(lba, current, buffer, at, chunk, d);
        SameOutsideTrans(d, before, sectors, lba, n, current, chunk);
        if !done {
          return false;
        }
        current, at, remaining := current + chunk, at + Bytes(chunk), remaining - chunk;
      }
      return true;
    }
  }

  /** r is d with n sectors from lba replaced by the data. */
  ghost predicate Patched(d: Sectors, r: Sectors, lba: nat, n: nat, data: seq<Byte>) {
    |data| == Bytes(n) && if n == 0 then r == d else Formatted(d) && lba + n <= |d| && r == Patch(d, lba, n, data)
  }

  lemma PatchedMore(d: Sectors, r: Sectors, lba: nat, n: nat, data: seq<Byte>, k: nat, more: seq<Byte>)
    requires Formatted(d) && Formatted(r) && Patched(d, r, lba, n, data)
    requires 0 < k && lba + n + k <= |d| == |r| && |more| == Bytes(k)
    ensures Patched(d, Patch(r, lba + n, k, more), lba, n + k, data + more)
  {
    if n == 0 {
      assert data + more == more;
    } else {
      PatchAppend(d, lba, n, data, k, more);
    }
  }

  /** data is the first n sectors of the slice at lba; nothing is said of an empty one. */
  ghost predicate Holds(d: Sectors, lba: nat, n: nat, data: seq<Byte>) {
    |data| == Bytes(n) && (n > 0 ==> Formatted(d) && lba + n <= |d| && data == Flat(d, lba, n))
  }

  lemma HoldsMore(d: Sectors, lba: nat, n: nat, data: seq<Byte>, k: nat)
    requires Formatted(d) && lba + n + k <= |d| && Holds(d, lba, n, data)
    ensures Holds(d, lba, n + k, data + Flat(d, lba + n, k))
  {
    FlatAppend(d, lba, n, k);
    assert n == 0 ==> data + Flat(d, lba, k) == Flat(d, lba, k);
  }

  lemma BytesSplit(k: nat, n: nat)
    requires k <= n
    ensures Bytes(n) == Bytes(k) + Bytes(n - k)
  {
  }
}
