/** The permutation on lanes, bit by bit, is the one of FIPS 202. */
module KeccakBits {
  import opened Arith
  import opened Keccak
  import Fips = Fips202

  // ---------------------------------------------------------------- bits of a lane

  type Position = bv6

  /** z modulo 64. */
  function Place(z: nat): Position { if z == 0 then 0 else Place(z - 1) + 1 }

  predicate BitOf(x: Lane, p: Position) { (x >> p) & 1 == 1 }

  /** Bit z of a lane, the lowest first. */
  predicate LaneBit(x: Lane, z: nat)
    requires z < 64
  {
    BitOf(x, Place(z))
  }

  lemma PlaceBefore(z: nat)
    requires z < 64
    ensures Place((z + 63) % 64) == Place(z) - 1
  {
    hide Place;
    if z == 0 {
      PlaceNext(0);
      PlaceIs(63);
    } else {
      PlaceNext(z - 1);
    }
  }

  lemma PlaceNext(z: nat)
    ensures Place(0) == 0 && Place(z + 1) == Place(z) + 1
  {
  }

  lemma {:induction false} PlaceIs(z: nat)
    requires z < 64
    ensures Place(z) as int == z
  {
    if z > 0 {
      PlaceIs(z - 1);
      OneMore(Place(z - 1));
    }
  }

  lemma OneMore(p: Position)
    requires p as int < 63
    ensures (p + 1) as int == p as int + 1
  {
  }

  function Half(x: Lane): Lane { x >> 1 }
  predicate Lowest(x: Lane) { x & 1 == 1 }

  /** Going down the bits is shifting the lane down. */
  lemma BitBelow(x: Lane, z: nat)
    requires z < 64
    ensures LaneBit(x, z) == if z == 0 then Lowest(x) else LaneBit(Half(x), z - 1)
  {
    hide Place;
    if z == 0 {
      PlaceNext(0);
      Unshifted(x);
    } else {
      PlaceNext(z - 1);
      PlaceIs(z - 1);
      Shifted(x, Place(z - 1));
    }
  }

  lemma Unshifted(x: Lane)
    ensures BitOf(x, 0) == Lowest(x)
  {
  }

  lemma Shifted(x: Lane, p: Position)
    requires p as int < 63
    ensures BitOf(x, p + 1) == BitOf(Half(x), p)
  {
    assert p != 63;
  }

  lemma {:induction false} XorBit(x: Lane, y: Lane, z: nat)
    requires z < 64
    ensures LaneBit(Xor(x, y), z) == Fips.Odd(LaneBit(x, z), LaneBit(y, z))
    decreases z
  {
    hide LaneBit, Xor, Half, Lowest;
    BitBelow(x, z);
    BitBelow(y, z);
    BitBelow(Xor(x, y), z);
    XorDown(x, y);
    if z > 0 {
      XorBit(Half(x), Half(y), z - 1);
    }
  }

  lemma XorDown(x: Lane, y: Lane)
    ensures Half(Xor(x, y)) == Xor(Half(x), Half(y))
    ensures Lowest(Xor(x, y)) == Fips.Odd(Lowest(x), Lowest(y))
  {
  }

  lemma {:induction false} AndBit(x: Lane, y: Lane, z: nat)
    requires z < 64
    ensures LaneBit(And(x, y), z) == (LaneBit(x, z) && LaneBit(y, z))
    decreases z
  {
    hide LaneBit, And, Half, Lowest;
    BitBelow(x, z);
    BitBelow(y, z);
    BitBelow(And(x, y), z);
    AndDown(x, y);
    if z > 0 {
      AndBit(Half(x), Half(y), z - 1);
    }
  }

  lemma AndDown(x: Lane, y: Lane)
    ensures Half(And(x, y)) == And(Half(x), Half(y))
    ensures Lowest(And(x, y)) == (Lowest(x) && Lowest(y))
  {
  }

  lemma {:induction false} OrBit(x: Lane, y: Lane, z: nat)
    requires z < 64
    ensures LaneBit(Or(x, y), z) == (LaneBit(x, z) || LaneBit(y, z))
    decreases z
  {
    hide LaneBit, Or, Half, Lowest;
    BitBelow(x, z);
    BitBelow(y, z);
    BitBelow(Or(x, y), z);
    OrDown(x, y);
    if z > 0 {
      OrBit(Half(x), Half(y), z - 1);
    }
  }

  lemma OrDown(x: Lane, y: Lane)
    ensures Half(Or(x, y)) == Or(Half(x), Half(y))
    ensures Lowest(Or(x, y)) == (Lowest(x) || Lowest(y))
  {
  }

  lemma NotBit(x: Lane, z: nat)
    requires z < 64
    ensures LaneBit(Not(x), z) == !LaneBit(x, z)
  {
    hide Place;
    NotAt(x, Place(z));
  }

  lemma NotAt(x: Lane, p: Position)
    ensures BitOf(Not(x), p) <==> !BitOf(x, p)
  {
  }

  lemma Rol1Bit(x: Lane, p: Position)
    ensures BitOf(Rol1(x), p) <==> BitOf(x, p - 1)
  {
  }

  /** Rotation to the left by k moves bit z from k places lower, modulo 64. */
  lemma {:induction false} RolBit(x: Lane, k: nat, z: nat)
    requires z < 64
    ensures LaneBit(Rol(x, k), z) == LaneBit(x, (z - k) % 64)
  {
    hide BitOf, Rol1, Place;
    if k == 0 {
      DivModUnique(z, 64, 0, z);
    } else {
      var before := (z + 63) % 64;
      Rol1Bit(Rol(x, k - 1), Place(z));
      PlaceBefore(z);
      RolBit(x, k - 1, before);
      BeforeThat(z, k);
    }
  }

  lemma BeforeThat(z: nat, k: nat)
    requires z < 64 && k > 0
    ensures ((z + 63) % 64 - (k - 1)) % 64 == (z - k) % 64
  {
    var q, r := (z - k) / 64, (z - k) % 64;
    var before := (z + 63) % 64;
    assert before == z - 1 || before == z + 63;
    DivModUnique(before - (k - 1), 64, if before == z - 1 then q else q + 1, r);
  }

  // ---------------------------------------------------------------- states as strings

  function Flat(s: Lanes): Fips.Bits {
    seq(1600, i requires 0 <= i < 1600 => LaneBit(s[i / 64], i % 64))
  }

  lemma FlatAt(s: Lanes, x: nat, y: nat, z: nat)
    requires x < 5 && y < 5 && z < 64
    ensures Fips.At(Flat(s), x, y, z) == LaneBit(s[x + 5 * y], z)
  {
    hide LaneBit;
    var i := 64 * (5 * y + x) + z;
    DivModUnique(i, 64, 5 * y + x, z);
  }

  /** What is the same at every lane and bit is the same string. */
  lemma FlatIs(s: Lanes, t: Fips.Bits)
    requires forall i, z :: 0 <= i < 25 && 0 <= z < 64 ==> LaneBit(s[i], z) == t[64 * i + z]
    ensures Flat(s) == t
  {
    hide LaneBit;
    forall i | 0 <= i < 1600 ensures Flat(s)[i] == t[i] {
      assert LaneBit(s[i / 64], i % 64) == t[64 * (i / 64) + i % 64];
    }
  }

  lemma Coordinates(i: nat, z: nat)
    requires i < 25 && z < 64
    ensures (64 * i + z) / 64 == i && (64 * i + z) % 64 == z
    ensures i % 5 < 5 && i / 5 < 5 && i == i % 5 + 5 * (i / 5)
  {
    DivModUnique(64 * i + z, 64, i, z);
  }

  // ---------------------------------------------------------------- theta

  lemma ColumnBit(s: Lanes, x: nat, z: nat)
    requires x < 5 && z < 64
    ensures LaneBit(Column(s, x), z) == Fips.Parity(Flat(s), x, z)
  {
    hide LaneBit, Xor, Flat;
    FlatAt(s, x, 0, z);
    FlatAt(s, x, 1, z);
    FlatAt(s, x, 2, z);
    FlatAt(s, x, 3, z);
    FlatAt(s, x, 4, z);
    XorBit(s[x], s[x + 5], z);
    XorBit(Xor(s[x], s[x + 5]), s[x + 10], z);
    XorBit(Xor(Xor(s[x], s[x + 5]), s[x + 10]), s[x + 15], z);
    XorBit(Xor(Xor(Xor(s[x], s[x + 5]), s[x + 10]), s[x + 15]), s[x + 20], z);
  }

  lemma ThetaLaneBit(s: Lanes, x: nat, z: nat)
    requires x < 5 && z < 64
    ensures LaneBit(ThetaLane(s, x), z) ==
      Fips.Odd(Fips.Parity(Flat(s), (x + 4) % 5, z), Fips.Parity(Flat(s), (x + 1) % 5, (z + 63) % 64))
  {
    hide LaneBit, Xor, Flat, Column, Rol, Fips.Parity, Fips.Odd;
    var before, behind := Column(s, (x + 4) % 5), Column(s, (x + 1) % 5);
    XorBit(before, Rol(behind, 1), z);
    ColumnBit(s, (x + 4) % 5, z);
    RolBit(behind, 1, z);
    assert (z - 1) % 64 == (z + 63) % 64;
    ColumnBit(s, (x + 1) % 5, (z + 63) % 64);
  }

  lemma ThetaBitIs(s: Lanes, i: nat, z: nat)
    requires i < 25 && z < 64
    ensures LaneBit(Theta(s)[i], z) == Fips.ThetaBit(Flat(s), i % 5, i / 5, z)
  {
    hide LaneBit, Xor, Flat, ThetaLane, Fips.Parity, Fips.At, Fips.Odd;
    Coordinates(i, z);
    XorBit(s[i], ThetaLane(s, i % 5), z);
    ThetaLaneBit(s, i % 5, z);
    FlatAt(s, i % 5, i / 5, z);
  }

  lemma ThetaOnBits(s: Lanes)
    ensures Flat(Theta(s)) == Fips.Theta(Flat(s))
  {
    hide LaneBit, Flat, Theta, Fips.ThetaBit;
    forall i, z | 0 <= i < 25 && 0 <= z < 64
      ensures LaneBit(Theta(s)[i], z) == Fips.Theta(Flat(s))[64 * i + z]
    {
      Coordinates(i, z);
      ThetaBitIs(s, i, z);
    }
    FlatIs(Theta(s), Fips.Theta(Flat(s)));
  }

  // ---------------------------------------------------------------- rho

  /** Step t of the walk comes to another place than the steps before. */
  lemma WalkOnce(t: nat, u: nat)
    requires t < u < 24
    ensures Fips.Walk(t) != Fips.Walk(u)
  {
    hide Fips.Walk;
    WalkSteps();
    StepIndex(t);
    StepIndex(u);
  }

  lemma StepIndex(t: nat)
    requires t < 24
    ensures t == 0 || t == 1 || t == 2 || t == 3 || t == 4 || t == 5 || t == 6 || t == 7 || t == 8 || t == 9
         || t == 10 || t == 11 || t == 12 || t == 13 || t == 14 || t == 15 || t == 16 || t == 17 || t == 18
         || t == 19 || t == 20 || t == 21 || t == 22 || t == 23
  {
  }

  lemma {:induction false} OffsetFound(u: nat, t: nat)
    requires t <= u < 24
    ensures Fips.Offset(Fips.Walk(u).0, Fips.Walk(u).1, t) == (u + 1) * (u + 2) / 2
    decreases u - t
  {
    hide Fips.Walk;
    if t < u {
      WalkOnce(t, u);
      OffsetFound(u, t + 1);
    }
  }

  lemma {:induction false} NoOffset(t: nat)
    requires t <= 24
    ensures Fips.Offset(0, 0, t) == 0
    decreases 24 - t
  {
    hide Fips.Walk;
    if t < 24 {
      WalkSteps();
      StepIndex(t);
      NoOffset(t + 1);
    }
  }

  /** Every lane but the first is on the walk. */
  lemma OnWalk(i: nat) returns (u: nat)
    requires 0 < i < 25
    ensures u < 24 && Fips.Walk(u) == (i % 5, i / 5)
  {
    hide Fips.Walk;
    WalkSteps();
    var us: seq<nat> := [0, 0, 18, 6, 12, 7, 23, 2, 9, 22, 1, 3, 17, 16, 20, 13, 8, 4, 5, 15, 19, 10, 21, 14, 11];
    u := us[i];
    LaneIndex(i);
  }

  lemma OffsetsAre(i: nat)
    requires i < 25
    ensures |OFFSETS| == 25 && Fips.Offset(i % 5, i / 5, 0) % 64 == OFFSETS[i]
  {
    hide Fips.Walk, Fips.Offset, OFFSETS;
    OffsetsSmall(i);
    if i == 0 {
      NoOffset(0);
    } else {
      var u := OnWalk(i);
      OffsetFound(u, 0);
      OffsetsAreTriangular(u);
    }
  }

  lemma OffsetsSmall(i: nat)
    requires i < 25
    ensures |OFFSETS| == 25 && OFFSETS[i] < 64 && OFFSETS[0] == 0 && i == i % 5 + 5 * (i / 5)
  {
    LaneIndex(i);
  }

  lemma MinusMod(z: nat, k: nat)
    ensures (z - k) % 64 == (z - k % 64) % 64
  {
    var q, r := (z - k % 64) / 64, (z - k % 64) % 64;
    DivModUnique(z - k, 64, q - k / 64, r);
  }

  lemma RhoBitIs(s: Lanes, i: nat, z: nat)
    requires i < 25 && z < 64
    ensures LaneBit(Rho(s)[i], z) == Fips.RhoBit(Flat(s), i % 5, i / 5, z)
  {
    hide LaneBit, Flat, Rol, Fips.At, Fips.Offset, OFFSETS;
    Coordinates(i, z);
    OffsetsAre(i);
    RolBit(s[i], OFFSETS[i], z);
    MinusMod(z, Fips.Offset(i % 5, i / 5, 0));
    FlatAt(s, i % 5, i / 5, (z - OFFSETS[i]) % 64);
  }

  lemma RhoOnBits(s: Lanes)
    ensures Flat(Rho(s)) == Fips.Rho(Flat(s))
  {
    hide LaneBit, Flat, Rho, Fips.RhoBit;
    forall i, z | 0 <= i < 25 && 0 <= z < 64
      ensures LaneBit(Rho(s)[i], z) == Fips.Rho(Flat(s))[64 * i + z]
    {
      Coordinates(i, z);
      RhoBitIs(s, i, z);
    }
    FlatIs(Rho(s), Fips.Rho(Flat(s)));
  }

  // ---------------------------------------------------------------- pi, chi, iota

  lemma PiSize(i: nat)
    requires i < 25
    ensures |PI| == 25 && PI[i] < 25
  {
    LaneIndex(i);
  }

  lemma PiBitIs(s: Lanes, i: nat, z: nat)
    requires i < 25 && z < 64
    ensures |PI| == 25 && PI[i] < 25 && LaneBit(Pi(s)[i], z) == Fips.PiBit(Flat(s), i % 5, i / 5, z)
  {
    hide LaneBit, Flat, Fips.At, PI;
    Coordinates(i, z);
    PiSize(i);
    PiIsTheStandardStep(i % 5, i / 5);
    FlatAt(s, (i % 5 + 3 * (i / 5)) % 5, i % 5, z);
  }

  lemma PiOnBits(s: Lanes)
    ensures Flat(Pi(s)) == Fips.Pi(Flat(s))
  {
    hide LaneBit, Flat, Pi, Fips.PiBit;
    forall i, z | 0 <= i < 25 && 0 <= z < 64
      ensures LaneBit(Pi(s)[i], z) == Fips.Pi(Flat(s))[64 * i + z]
    {
      Coordinates(i, z);
      PiBitIs(s, i, z);
    }
    FlatIs(Pi(s), Fips.Pi(Flat(s)));
  }

  lemma ChiBitIs(s: Lanes, i: nat, z: nat)
    requires i < 25 && z < 64
    ensures LaneBit(Chi(s)[i], z) == Fips.ChiBit(Flat(s), i % 5, i / 5, z)
  {
    hide LaneBit, Flat, Xor, And, Not, Fips.At, Fips.Odd;
    Coordinates(i, z);
    var x, y := i % 5, i / 5;
    var b, c := s[(x + 1) % 5 + 5 * y], s[(x + 2) % 5 + 5 * y];
    XorBit(s[i], And(Not(b), c), z);
    AndBit(Not(b), c, z);
    NotBit(b, z);
    FlatAt(s, x, y, z);
    FlatAt(s, (x + 1) % 5, y, z);
    FlatAt(s, (x + 2) % 5, y, z);
  }

  lemma ChiOnBits(s: Lanes)
    ensures Flat(Chi(s)) == Fips.Chi(Flat(s))
  {
    hide LaneBit, Flat, Chi, Fips.ChiBit;
    forall i, z | 0 <= i < 25 && 0 <= z < 64
      ensures LaneBit(Chi(s)[i], z) == Fips.Chi(Flat(s))[64 * i + z]
    {
      Coordinates(i, z);
      ChiBitIs(s, i, z);
    }
    FlatIs(Chi(s), Fips.Chi(Flat(s)));
  }

  /** The register as a string, its first bit first. */
  function Eight(x: bv8): Fips.Eight {
    [x & 0x01 != 0, x & 0x02 != 0, x & 0x04 != 0, x & 0x08 != 0,
     x & 0x10 != 0, x & 0x20 != 0, x & 0x40 != 0, x & 0x80 != 0]
  }

  lemma EightShift(x: bv8)
    ensures Eight(Shift(x)) == Fips.Shift(Eight(x))
  {
  }

  lemma {:induction false} RegisterOnBits(t: nat)
    ensures Eight(Register(t)) == Fips.Register(t)
  {
    hide Shift, Eight, Fips.Shift;
    if t == 0 {
      assert Eight(1) == Fips.Register(0) by { EightOne(); }
    } else {
      RegisterOnBits(t - 1);
      EightShift(Register(t - 1));
    }
  }

  lemma EightOne()
    ensures Eight(1) == [true, false, false, false, false, false, false, false]
  {
  }

  lemma OutIs(x: bv8)
    ensures Out(x) == if Eight(x)[0] then 1 else 0
  {
  }

  /** A single bit moved up, seen from any place. */
  lemma MovedUp(o: Lane, p: Position)
    requires o == 0 || o == 1
    ensures BitOf(o, p) <==> o == 1 && p == 0
    ensures BitOf(o << 1, p) <==> o == 1 && p == 1
    ensures BitOf(o << 3, p) <==> o == 1 && p == 3
    ensures BitOf(o << 7, p) <==> o == 1 && p == 7
  {
  }

  lemma MovedFar(o: Lane, p: Position)
    requires o == 0 || o == 1
    ensures BitOf(o << 15, p) <==> o == 1 && p == 15
    ensures BitOf(o << 31, p) <==> o == 1 && p == 31
    ensures BitOf(o << 63, p) <==> o == 1 && p == 63
  {
  }

  lemma PlaceIsOne(z: nat)
    requires z < 64
    ensures (Place(z) == 0 <==> z == 0) && (Place(z) == 1 <==> z == 1) && (Place(z) == 3 <==> z == 3)
    ensures (Place(z) == 7 <==> z == 7) && (Place(z) == 15 <==> z == 15) && (Place(z) == 31 <==> z == 31)
    ensures Place(z) == 63 <==> z == 63
  {
    hide Place;
    PlaceIs(z);
    PlaceIs(0);
    PlaceIs(1);
    PlaceIs(3);
    PlaceIs(7);
    PlaceIs(15);
    PlaceIs(31);
    PlaceIs(63);
  }

  lemma SevenBits(a: Lane, b: Lane, c: Lane, d: Lane, e: Lane, f: Lane, g: Lane, z: nat)
    requires z < 64
    ensures LaneBit(Or(Or(Or(Or(Or(Or(a, b), c), d), e), f), g), z) ==
      (LaneBit(a, z) || LaneBit(b, z) || LaneBit(c, z) || LaneBit(d, z) || LaneBit(e, z) || LaneBit(f, z)
       || LaneBit(g, z))
  {
    hide Or, LaneBit;
    OrBit(a, b, z);
    OrBit(Or(a, b), c, z);
    OrBit(Or(Or(a, b), c), d, z);
    OrBit(Or(Or(Or(a, b), c), d), e, z);
    OrBit(Or(Or(Or(Or(a, b), c), d), e), f, z);
    OrBit(Or(Or(Or(Or(Or(a, b), c), d), e), f), g, z);
  }

  lemma FromOutputs(x0: bv8, z: nat)
    requires z < 64
    ensures var x1 := Shift(x0); var x2 := Shift(x1); var x3 := Shift(x2);
      var x4 := Shift(x3); var x5 := Shift(x4); var x6 := Shift(x5);
      LaneBit(FromRegister(x0), z) ==
        ((z == 0 && Out(x0) == 1) || (z == 1 && Out(x1) == 1) || (z == 3 && Out(x2) == 1)
         || (z == 7 && Out(x3) == 1) || (z == 15 && Out(x4) == 1) || (z == 31 && Out(x5) == 1)
         || (z == 63 && Out(x6) == 1))
  {
    hide Shift, Eight, BitOf, Place;
    var x1 := Shift(x0);
    var x2 := Shift(x1);
    var x3 := Shift(x2);
    var x4 := Shift(x3);
    var x5 := Shift(x4);
    var x6 := Shift(x5);
    SevenBits(Out(x0), Out(x1) << 1, Out(x2) << 3, Out(x3) << 7, Out(x4) << 15, Out(x5) << 31, Out(x6) << 63, z);
    PlaceIsOne(z);
    MovedUp(Out(x0), Place(z));
    MovedUp(Out(x1), Place(z));
    MovedUp(Out(x2), Place(z));
    MovedUp(Out(x3), Place(z));
    MovedFar(Out(x4), Place(z));
    MovedFar(Out(x5), Place(z));
    MovedFar(Out(x6), Place(z));
  }

  lemma ConstantBit(r: nat, z: nat)
    requires r < 24 && z < 64
    ensures |RC| == 24 && LaneBit(RC[r], z) == Fips.Constant(r, z)
  {
    hide RC, LaneBit, FromRegister, Out, Shift, Eight, Register, Fips.Register;
    ConstantsAreGenerated(r);
    var t := 7 * r;
    FromOutputs(Register(t), z);
    SixShifts(t);
    OutputsAre(t);
  }

  lemma SixShifts(t: nat)
    ensures Register(t + 1) == Shift(Register(t)) && Register(t + 2) == Shift(Register(t + 1))
    ensures Register(t + 3) == Shift(Register(t + 2)) && Register(t + 4) == Shift(Register(t + 3))
    ensures Register(t + 5) == Shift(Register(t + 4)) && Register(t + 6) == Shift(Register(t + 5))
  {
    hide Shift;
  }

  lemma OutputsAre(t: nat)
    ensures forall j :: t <= j <= t + 6 ==> (Out(Register(j)) == 1 <==> Fips.Register(j)[0])
    ensures |RC| == 24
  {
    hide Out, Eight, Register, Fips.Register;
    forall j | t <= j <= t + 6 ensures Out(Register(j)) == 1 <==> Fips.Register(j)[0] {
      OutIs(Register(j));
      RegisterOnBits(j);
    }
  }

  lemma IotaBitIs(s: Lanes, r: nat, i: nat, z: nat)
    requires r < 24 && i < 25 && z < 64
    ensures |RC| == 24 && LaneBit(Iota(s, RC[r])[i], z) == Fips.IotaBit(Flat(s), r, i % 5, i / 5, z)
  {
    hide LaneBit, Flat, Xor, RC, Fips.At, Fips.Odd, Fips.Constant;
    Coordinates(i, z);
    ConstantBit(r, z);
    XorBit(s[0], RC[r], z);
    FlatAt(s, i % 5, i / 5, z);
    OddFalse(LaneBit(s[i], z));
  }

  lemma OddFalse(a: bool)
    ensures Fips.Odd(a, false) == a
  {
  }

  lemma IotaOnBits(s: Lanes, r: nat)
    requires r < 24
    ensures |RC| == 24 && Flat(Iota(s, RC[r])) == Fips.Iota(Flat(s), r)
  {
    hide LaneBit, Flat, Iota, RC, Fips.IotaBit;
    IotaBitIs(s, r, 0, 0);
    forall i, z | 0 <= i < 25 && 0 <= z < 64
      ensures LaneBit(Iota(s, RC[r])[i], z) == Fips.Iota(Flat(s), r)[64 * i + z]
    {
      Coordinates(i, z);
      IotaBitIs(s, r, i, z);
    }
    FlatIs(Iota(s, RC[r]), Fips.Iota(Flat(s), r));
  }

  // ---------------------------------------------------------------- all rounds

  lemma {:induction false} RoundsOnBits(s: Lanes, n: nat)
    requires n <= 24
    ensures Flat(Rounds(s, 0, n)) == Fips.Rounds(Flat(s), n)
  {
    hide Flat, Theta, Rho, Pi, Chi, Iota, RC, Fips.Theta, Fips.Rho, Fips.Pi, Fips.Chi, Fips.Iota;
    if n > 0 {
      var t := Rounds(s, 0, n - 1);
      RoundsOnBits(s, n - 1);
      ThetaOnBits(t);
      RhoOnBits(Theta(t));
      PiOnBits(Rho(Theta(t)));
      ChiOnBits(Pi(Rho(Theta(t))));
      IotaOnBits(Chi(Pi(Rho(Theta(t)))), n - 1);
    }
  }

  /** On lanes and on strings it is the same permutation. */
  lemma PermutationOnBits(s: Lanes)
    ensures Flat(KeccakF(s)) == Fips.Permutation(Flat(s))
  {
    hide Flat, Rounds, Fips.Rounds;
    RoundsOnBits(s, 24);
  }
}
