/** Bytes, 32-bit words and a few definitions shared by the other modules. */
module Words {
  type Byte = b: int | 0 <= b < 256

  const WORD: nat := 0x1_0000_0000

  datatype Option<+T> = None | Some(value: T)

  /** A pointer: null, or the address of a struct. */
  type Ptr = Option<nat>

  predicate Distinct<T(==)>(xs: seq<T>) {
    forall i, j :: 0 <= i < j < |xs| ==> xs[i] != xs[j]
  }

  // ----- little-endian fields

  function U16(c: seq<Byte>, at: nat): nat
    requires at + 2 <= |c|
  {
    c[at] as nat + 256 * c[at + 1] as nat
  }

  function U32(c: seq<Byte>, at: nat): nat
    requires at + 4 <= |c|
  {
    U16(c, at) + 65536 * U16(c, at + 2)
  }

  function Bytes16(v: nat): (r: seq<Byte>)
    ensures |r| == 2
  {
    [v % 256, v / 256 % 256]
  }

  function Bytes32(v: nat): (r: seq<Byte>)
    ensures |r| == 4
  {
    Bytes16(v % 65536) + Bytes16(v / 65536)
  }

  lemma Field16(before: seq<Byte>, v: nat, behind: seq<Byte>)
    requires v < 65536
    ensures U16(before + Bytes16(v) + behind, |before|) == v
  {
    assert v / 256 < 256;
  }

  lemma Field32(before: seq<Byte>, v: nat, behind: seq<Byte>)
    requires v < WORD
    ensures U32(before + Bytes32(v) + behind, |before|) == v
  {
    var lo, hi := v % 65536, v / 65536;
    Field16(before, lo, Bytes16(hi) + behind);
    Field16(before + Bytes16(lo), hi, behind);
    assert before + Bytes16(lo) + (Bytes16(hi) + behind) == before + Bytes32(v) + behind;
    assert before + Bytes16(lo) + Bytes16(hi) + behind == before + Bytes32(v) + behind;
  }
}
