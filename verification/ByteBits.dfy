/** Single bits of bytes: tested, set, and laid out in order. */
module ByteBits {

  type Byte = bv8

  const BIT_MASK: seq<Byte> := [0x01, 0x02, 0x04, 0x08, 0x10, 0x20, 0x40, 0x80]

  /** Bit i of a byte, the lowest first. */
  predicate Test(b: Byte, i: nat) {
    i < 8 && b & BIT_MASK[i] != 0
  }

  /** All bits of the bytes, in the order that `bit` numbers those of one byte. */
  function Bits(bit: (Byte, nat) -> bool, data: seq<Byte>): (r: seq<bool>)
    ensures |r| == 8 * |data|
    ensures forall i :: 0 <= i < |r| ==> r[i] == bit(data[i / 8], i % 8)
  {
    seq(8 * |data|, i requires 0 <= i < 8 * |data| => bit(data[i / 8], i % 8))
  }

  function Set(b: Byte, i: nat): Byte
    requires i < 8
  {
    b | BIT_MASK[i]
  }

  lemma TestSet(b: Byte, i: nat, j: nat)
    requires i < 8 && j < 8
    ensures Test(Set(b, i), j) <==> Test(b, j) || i == j
  {
    if j < 4 { TestSetLow(b, i, j); } else { TestSetHigh(b, i, j); }
  }

  lemma TestSetLow(b: Byte, i: nat, j: nat)
    requires i < 8 && j < 4
    ensures Test(Set(b, i), j) <==> Test(b, j) || i == j
  {
  }

  lemma TestSetHigh(b: Byte, i: nat, j: nat)
    requires i < 8 && 4 <= j < 8
    ensures Test(Set(b, i), j) <==> Test(b, j) || i == j
  {
  }

  predicate BitAt(v: seq<Byte>, k: nat)
    requires k < 8 * |v|
  {
    Test(v[k / 8], k % 8)
  }

  function WithBit(v: seq<Byte>, k: nat): (r: seq<Byte>)
    requires k < 8 * |v|
    ensures |r| == |v|
  {
    v[k / 8 := Set(v[k / 8], k % 8)]
  }

  /** Setting one bit sets that bit and no other. */
  lemma WithBitAt(v: seq<Byte>, k: nat, j: nat)
    requires k < 8 * |v| && j < 8 * |v|
    ensures BitAt(WithBit(v, k), j) <==> BitAt(v, j) || j == k
  {
    hide Test, Set;
    if j / 8 == k / 8 {
      TestSet(v[k / 8], k % 8, j % 8);
    }
  }

  predicate AllOnes(v: seq<Byte>) { forall i :: 0 <= i < |v| ==> v[i] == 0xFF }
  predicate AllZeros(v: seq<Byte>) { forall i :: 0 <= i < |v| ==> v[i] == 0 }

  lemma FullMask(j: nat)
    requires j < 8
    ensures Test(0xFF, j) && !Test(0, j)
  {
  }

  lemma AllOnesBit(v: seq<Byte>, k: nat)
    requires k < 8 * |v|
    ensures AllOnes(v) ==> BitAt(v, k)
    ensures AllZeros(v) ==> !BitAt(v, k)
  {
    FullMask(k % 8);
  }

  lemma SomeBit(b: Byte) returns (j: nat)
    requires b != 0
    ensures j < 8 && Test(b, j)
  {
    assert b & 0x01 != 0 || b & 0x02 != 0 || b & 0x04 != 0 || b & 0x08 != 0
        || b & 0x10 != 0 || b & 0x20 != 0 || b & 0x40 != 0 || b & 0x80 != 0;
    j := if Test(b, 0) then 0 else if Test(b, 1) then 1 else if Test(b, 2) then 2 else if Test(b, 3) then 3
      else if Test(b, 4) then 4 else if Test(b, 5) then 5 else if Test(b, 6) then 6 else 7;
  }

  /** Bytes are all zero exactly if no bit is set. */
  lemma NotAllZeros(v: seq<Byte>)
    ensures !AllZeros(v) <==> exists k :: 0 <= k < 8 * |v| && BitAt(v, k)
  {
    hide Test;
    if k :| 0 <= k < 8 * |v| && BitAt(v, k) {
      AllOnesBit(v, k);
    }
    if !AllZeros(v) {
      var i :| 0 <= i < |v| && v[i] != 0;
      var j := SomeBit(v[i]);
      assert (8 * i + j) / 8 == i && (8 * i + j) % 8 == j;
      assert BitAt(v, 8 * i + j);
    }
  }
}
