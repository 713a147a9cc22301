/** What the Keccak context computes, on bits: the sponge of FIPS 202 over the
    permutation of FIPS 202. */
module KeccakStandard {
  import opened Arith
  import opened ByteBits
  import opened Keccak
  import opened KeccakBits
  import opened KeccakSponge
  import opened Streaming
  import Fips = Fips202

  // ---------------------------------------------------------------- bytes of a lane

  lemma PlaceEight(z: nat)
    ensures Place(z + 8) == Place(z) + 8
  {
    assert Place(z + 4) == Place(z + 3) + 1 == Place(z + 2) + 2 == Place(z + 1) + 3 == Place(z) + 4;
    assert Place(z + 8) == Place(z + 7) + 1 == Place(z + 6) + 2 == Place(z + 5) + 3 == Place(z + 4) + 4;
  }

  lemma LowPlace(b: Byte, j: nat)
    requires j < 8
    ensures BitOf(b as Lane, Place(j)) == Test(b, j) && Place(j) as int == j
  {
    hide Place, BitOf, Test;
    PlaceIs(j);
    LowAt(b);
    PlacesBelow();
    assert j == 0 || j == 1 || j == 2 || j == 3 || j == 4 || j == 5 || j == 6 || j == 7;
  }

  lemma PlacesBelow()
    ensures Place(0) == 0 && Place(1) == 1 && Place(2) == 2 && Place(3) == 3
    ensures Place(4) == 4 && Place(5) == 5 && Place(6) == 6 && Place(7) == 7
  {
    assert Place(4) == Place(3) + 1 && Place(5) == Place(4) + 1 && Place(6) == Place(5) + 1 && Place(7) == Place(6) + 1;
  }

  lemma LowAt(b: Byte)
    ensures BitOf(b as Lane, 0) == Test(b, 0) && BitOf(b as Lane, 1) == Test(b, 1)
    ensures BitOf(b as Lane, 2) == Test(b, 2) && BitOf(b as Lane, 3) == Test(b, 3)
    ensures BitOf(b as Lane, 4) == Test(b, 4) && BitOf(b as Lane, 5) == Test(b, 5)
    ensures BitOf(b as Lane, 6) == Test(b, 6) && BitOf(b as Lane, 7) == Test(b, 7)
  {
  }

  lemma HighAt(b: Byte, p: Position)
    requires p >= 8
    ensures !BitOf(b as Lane, p)
  {
  }

  lemma PushedUp(x: Lane, p: Position)
    ensures BitOf(x << 8, p) == (p >= 8 && BitOf(x, p - 8))
  {
  }

  lemma PulledDown(x: Lane, p: Position)
    requires p < 56
    ensures BitOf(Up(x), p) == BitOf(x, p + 8)
  {
  }

  lemma LowKeeps(x: Lane, p: Position)
    requires p < 8
    ensures BitOf(Low(x) as Lane, p) == BitOf(x, p)
  {
    LowAsLane(x);
  }

  /** The lowest byte of a lane has its lowest bits, and the lane above it the
      others. */
  lemma ByteBelow(x: Lane, z: nat)
    requires z < 64
    ensures LaneBit(x, z) == if z < 8 then Test(Low(x), z) else LaneBit(Up(x), z - 8)
  {
    hide BitOf, Place, Test, Low, Up;
    PlaceIs(z);
    if z < 8 {
      LowPlace(Low(x), z);
      LowKeeps(x, Place(z));
    } else {
      PlaceEight(z - 8);
      PlaceIs(z - 8);
      PulledDown(x, Place(z - 8));
    }
  }

  lemma JoinBit(b: Byte, x: Lane, z: nat)
    requires z < 64
    ensures LaneBit(Join(b, x), z) == if z < 8 then Test(b, z) else LaneBit(x, z - 8)
  {
    hide BitOf, Place, Test, Or;
    PlaceIs(z);
    var c := x << 8;
    JoinIsOr(b, x);
    OrBit(b as Lane, c, z);
    PushedUp(x, Place(z));
    if z < 8 {
      LowPlace(b, z);
    } else {
      PlaceEight(z - 8);
      HighAt(b, Place(z));
      BackEight(Place(z - 8));
    }
  }

  lemma JoinIsOr(b: Byte, x: Lane)
    ensures Join(b, x) == Or(b as Lane, x << 8)
  {
  }

  lemma BackEight(p: Position)
    ensures p + 8 - 8 == p
  {
  }

  /** Bit j of byte k of a lane is its bit 8k + j. */
  lemma {:induction false} ByteOfLane(x: Lane, n: nat, k: nat, j: nat)
    requires k < n <= 8 && j < 8
    ensures Test(Bytes(x, n)[k], j) == LaneBit(x, 8 * k + j)
    decreases k
  {
    hide LaneBit, Test, Low, Up;
    ByteBelow(x, 8 * k + j);
    if k > 0 {
      ByteOfLane(Up(x), n - 1, k - 1, j);
    }
  }

  lemma {:induction false} LaneOfBytes(b: seq<Byte>, k: nat, j: nat)
    requires k < |b| <= 8 && j < 8
    ensures LaneBit(Word(b), 8 * k + j) == Test(b[k], j)
    decreases k
  {
    hide LaneBit, Test, Join;
    JoinBit(b[0], Word(b[1..]), 8 * k + j);
    if k > 0 {
      LaneOfBytes(b[1..], k - 1, j);
    }
  }

  // ---------------------------------------------------------------- blocks and digests

  lemma XorInOnBits(s: Lanes, block: seq<Byte>)
    requires |block| % 8 == 0 && |block| <= 200
    ensures Flat(XorIn(s, block)) == Fips.AddBlock(Flat(s), Bits(Test, block))
  {
    hide LaneBit, Flat, XorIn, Fips.Odd, Test;
    forall i, z | 0 <= i < 25 && 0 <= z < 64
      ensures LaneBit(XorIn(s, block)[i], z) == Fips.AddBlock(Flat(s), Bits(Test, block))[64 * i + z]
    {
      Coordinates(i, z);
      XorInBit(s, block, i, z);
    }
    FlatIs(XorIn(s, block), Fips.AddBlock(Flat(s), Bits(Test, block)));
  }

  lemma XorInBit(s: Lanes, block: seq<Byte>, i: nat, z: nat)
    requires |block| % 8 == 0 && |block| <= 200 && i < 25 && z < 64
    ensures LaneBit(XorIn(s, block)[i], z) ==
      Fips.Odd(Flat(s)[64 * i + z], 64 * i + z < 8 * |block| && Bits(Test, block)[64 * i + z])
  {
    hide LaneBit, Xor, Word, Fips.Odd, Test;
    Coordinates(i, z);
    if 8 * i + 8 <= |block| {
      var b := block[8 * i..8 * i + 8];
      XorBit(s[i], Word(b), z);
      LaneOfBytes(b, z / 8, z % 8);
      InBlock(i, z);
    } else {
      OddFalse(LaneBit(s[i], z));
    }
  }

  lemma InBlock(i: nat, z: nat)
    requires z < 64
    ensures (64 * i + z) / 8 == 8 * i + z / 8 && (64 * i + z) % 8 == z % 8
  {
    DivModUnique(64 * i + z, 8, 8 * i + z / 8, z % 8);
  }

  lemma SqueezedBits(s: Lanes, d: nat)
    requires d <= 200
    ensures Bits(Test, Squeezed(s, d)) == Flat(s)[..8 * d]
  {
    hide LaneBit, Test, Bytes;
    forall i | 0 <= i < 8 * d ensures Bits(Test, Squeezed(s, d))[i] == Flat(s)[i] {
      var l, z := i / 64, i % 64;
      InBlock(l, z);
      assert i / 8 / 8 == l && i / 8 % 8 == z / 8;
      ByteOfLane(s[l], 8, z / 8, z % 8);
    }
  }

  lemma PlainStepOnBits(s: Lanes, block: seq<Byte>)
    requires |block| % 8 == 0 && |block| <= 200
    ensures Flat(PlainStep(s, block)) == Fips.Permutation(Fips.AddBlock(Flat(s), Bits(Test, block)))
  {
    hide Flat, XorIn, KeccakF, Fips.Permutation, Fips.AddBlock, Bits;
    XorInOnBits(s, block);
    PermutationOnBits(XorIn(s, block));
  }

  lemma {:induction false} AbsorbOnBits(s: Lanes, lim: nat, data: seq<Byte>)
    requires 0 < lim <= 200 && lim % 8 == 0
    ensures Flat(Absorb(PlainStep, lim, s, data)) == Fips.Absorb(Flat(s), 8 * lim, Bits(Test, data))
    decreases |data|
  {
    hide Flat, PlainStep, Test, Fips.Permutation, Fips.AddBlock;
    if |data| >= lim {
      PlainStepOnBits(s, data[..lim]);
      BitsSplit(data, lim);
      AbsorbOnBits(PlainStep(s, data[..lim]), lim, data[lim..]);
    }
  }

  lemma BitsSplit(data: seq<Byte>, n: nat)
    requires n <= |data|
    ensures Bits(Test, data)[..8 * n] == Bits(Test, data[..n])
    ensures Bits(Test, data)[8 * n..] == Bits(Test, data[n..])
  {
    hide Bits, Test;
    BitsConcat(data[..n], data[n..]);
    assert data == data[..n] + data[n..];
  }

  lemma ZeroOnBits()
    ensures Flat(Zero()) == seq(1600, _ => false)
  {
    hide LaneBit;
    forall i | 0 <= i < 1600 ensures !Flat(Zero())[i] {
      ZeroBit(i % 64);
    }
  }

  lemma ZeroBit(z: nat)
    requires z < 64
    ensures !LaneBit(0, z)
  {
    hide Place;
    ZeroAt(Place(z));
  }

  lemma ZeroAt(p: Position)
    ensures !BitOf(0, p)
  {
  }

  lemma SpongeOnBits(message: seq<Byte>, ub: Byte, n: nat, d: nat)
    requires n <= 7 && 0 < d <= 64 && d % 4 == 0
    ensures Bits(Test, Sponge(message, ub, n, d)) == Fips.Sponge(Bits(Test, message) + ExtraBits(ub, n), 8 * d)
  {
    hide Flat, Absorb, Fips.Absorb, Squeezed, Padded, Zero, Test, Bits, ExtraBits, Fips.Pad101;
    var lim := 200 - 2 * d;
    var data, bits := Padded(message, lim, ub, n), Bits(Test, message) + ExtraBits(ub, n);
    PaddedBits(message, lim, ub, n);
    MessageBits(message, ub, n);
    assert Bits(Test, data) == bits + Fips.Pad101(8 * lim, |bits|);
    AbsorbOnBits(Zero(), lim, data);
    ZeroOnBits();
    SqueezedBits(Absorb(PlainStep, lim, Zero(), data), d);
  }

  lemma MessageBits(message: seq<Byte>, ub: Byte, n: nat)
    requires n <= 7
    ensures |Bits(Test, message) + ExtraBits(ub, n)| == 8 * |message| + n
  {
  }

  /** However the message is fed to the code, closing gives the digest that the
      standard defines for its bits and the extra ones. */
  lemma DigestIsStandard(chunks: seq<seq<Byte>>, ub: Byte, n: nat, d: nat)
    requires n <= 7 && 0 < d <= 64 && d % 4 == 0
    ensures var x := FedAll(OptStep, 200 - 2 * d, Start(), chunks);
      && |x.held| < 200 - 2 * d
      && Bits(Test, Closed(x, ub, n, d)) == Fips.Sponge(Bits(Test, Concat(chunks)) + ExtraBits(ub, n), 8 * d)
  {
    hide OptStep, Closed, Sponge, Bits, ExtraBits, Fips.Sponge;
    DigestIsSponge(chunks, ub, n, d);
    SpongeOnBits(Concat(chunks), ub, n, d);
  }
}
