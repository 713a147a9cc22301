/** The Keccak-f[1600] permutation: the plain one of section 3 of FIPS 202, and
    the one of src/keccak.c, which keeps six lanes complemented and renames its
    lanes instead of moving them.  Lane (x, y) has index x + 5 * y. */
module Keccak {
  import Fips = Fips202

  type Lane = bv64
  type Lanes = s: seq<Lane> | |s| == 25 witness seq(25, _ => 0)

  // The gates of a lane, as functions so that proofs can hide what they do to
  // bits where only the laws below matter.

  function Xor(x: Lane, y: Lane): Lane { x ^ y }
  function And(x: Lane, y: Lane): Lane { x & y }
  function Or(x: Lane, y: Lane): Lane { x | y }
  function Not(x: Lane): Lane { !x }
  function Rol1(x: Lane): Lane { (x << 1) | (x >> 63) }

  /** Rotation to the left by k places. */
  function Rol(x: Lane, k: nat): Lane {
    if k == 0 then x else Rol1(Rol(x, k - 1))
  }

  lemma NotXor(x: Lane, y: Lane)
    ensures Xor(Not(x), y) == Not(Xor(x, y))
  {
  }

  lemma XorNot(x: Lane, y: Lane)
    ensures Xor(x, Not(y)) == Not(Xor(x, y))
  {
  }

  lemma NotXorNot(x: Lane, y: Lane)
    ensures Xor(Not(x), Not(y)) == Xor(x, y)
  {
  }

  lemma NotNot(x: Lane)
    ensures Not(Not(x)) == x
  {
  }

  lemma RolNot1(x: Lane)
    ensures Rol1(Not(x)) == Not(Rol1(x))
  {
    assert (!x << 1) | (!x >> 63) == !((x << 1) | (x >> 63));
  }

  lemma OrNot(x: Lane, y: Lane)
    ensures Or(x, Not(y)) == Not(And(Not(x), y))
  {
    assert x | !y == !(!x & y);
  }

  lemma {:induction false} RolNot(x: Lane, k: nat)
    ensures Rol(Not(x), k) == Not(Rol(x, k))
  {
    hide Not, Rol1;
    if k > 0 {
      RolNot(x, k - 1);
      RolNot1(Rol(x, k - 1));
    }
  }

  const RC: seq<Lane> := [
    0x0000000000000001, 0x0000000000008082, 0x800000000000808A, 0x8000000080008000,
    0x000000000000808B, 0x0000000080000001, 0x8000000080008081, 0x8000000000008009,
    0x000000000000008A, 0x0000000000000088, 0x0000000080008009, 0x000000008000000A,
    0x000000008000808B, 0x800000000000008B, 0x8000000000008089, 0x8000000000008003,
    0x8000000000008002, 0x8000000000000080, 0x000000000000800A, 0x800000008000000A,
    0x8000000080008081, 0x8000000000008080, 0x0000000080000001, 0x8000000080008008]

  /** Rotation offsets by lane index. */
  const OFFSETS: seq<nat> := [
     0,  1, 62, 28, 27,
    36, 44,  6, 55, 20,
     3, 10, 43, 25, 39,
    41, 45, 15, 21,  8,
    18,  2, 61, 56, 14]

  /** Where the pi step takes the lane for index i from: (x + 3y, x) for (x, y). */
  const PI: seq<nat> := [
     0,  6, 12, 18, 24,
     3,  9, 10, 16, 22,
     1,  7, 13, 19, 20,
     4,  5, 11, 17, 23,
     2,  8, 14, 15, 21]

  lemma PiIsTheStandardStep(x: nat, y: nat)
    requires x < 5 && y < 5
    ensures PI[x + 5 * y] == (x + 3 * y) % 5 + 5 * x
  {
  }

  // ---------------------------------------------------------------- the plain permutation

  function Column(s: Lanes, x: nat): Lane
    requires x < 5
  {
    Xor(Xor(Xor(Xor(s[x], s[x + 5]), s[x + 10]), s[x + 15]), s[x + 20])
  }

  function ThetaLane(s: Lanes, x: nat): Lane
    requires x < 5
  {
    Xor(Column(s, (x + 4) % 5), Rol(Column(s, (x + 1) % 5), 1))
  }

  function Theta(s: Lanes): Lanes {
    seq(25, i requires 0 <= i < 25 => Xor(s[i], ThetaLane(s, i % 5)))
  }

  function Rho(s: Lanes): Lanes {
    seq(25, i requires 0 <= i < 25 => Rol(s[i], OFFSETS[i]))
  }

  function Pi(s: Lanes): Lanes {
    seq(25, i requires 0 <= i < 25 => s[PI[i]])
  }

  function Chi(s: Lanes): Lanes {
    seq(25, i requires 0 <= i < 25 => ChiLane(s, i % 5, i / 5))
  }

  function ChiLane(s: Lanes, x: nat, y: nat): Lane
    requires x < 5 && y < 5
  {
    ChiGate(s[x + 5 * y], s[(x + 1) % 5 + 5 * y], s[(x + 2) % 5 + 5 * y])
  }

  function ChiGate(a: Lane, b: Lane, c: Lane): Lane { Xor(a, And(Not(b), c)) }

  function Iota(s: Lanes, rc: Lane): Lanes {
    s[0 := Xor(s[0], rc)]
  }

  function Round(s: Lanes, rc: Lane): Lanes {
    Iota(Chi(Pi(Rho(Theta(s)))), rc)
  }

  function Rounds(s: Lanes, from: nat, to: nat): Lanes
    requires from <= to <= 24
  {
    if from == to then s else Round(Rounds(s, from, to - 1), RC[to - 1])
  }

  function KeccakF(s: Lanes): Lanes {
    Rounds(s, 0, 24)
  }

  // ---------------------------------------------------------------- the gates of KHI

  function Xo(a: Lane, b: Lane, c: Lane): Lane { Xor(a, Or(b, c)) }
  function Xa(a: Lane, b: Lane, c: Lane): Lane { Xor(a, And(b, c)) }

  function Khi0(a: Lane, b: Lane, c: Lane, d: Lane, e: Lane): Row {
    (Xo(a, b, c), Xo(b, Not(c), d), Xa(c, d, e), Xo(d, e, a), Xa(e, a, b))
  }
  function Khi1(a: Lane, b: Lane, c: Lane, d: Lane, e: Lane): Row {
    (Xo(a, b, c), Xa(b, c, d), Xo(c, d, Not(e)), Xo(d, e, a), Xa(e, a, b))
  }
  function Khi2(a: Lane, b: Lane, c: Lane, d: Lane, e: Lane): Row {
    (Xo(a, b, c), Xa(b, c, d), Xa(c, Not(d), e), Xo(Not(d), e, a), Xa(e, a, b))
  }
  function Khi3(a: Lane, b: Lane, c: Lane, d: Lane, e: Lane): Row {
    (Xa(a, b, c), Xo(b, c, d), Xo(c, Not(d), e), Xa(Not(d), e, a), Xo(e, a, b))
  }
  function Khi4(a: Lane, b: Lane, c: Lane, d: Lane, e: Lane): Row {
    (Xa(a, Not(b), c), Xo(Not(b), c, d), Xa(c, d, e), Xo(d, e, a), Xa(e, a, b))
  }

  type Row = (Lane, Lane, Lane, Lane, Lane)

  function RowOf(s: Lanes, y: nat): Row
    requires y < 5
  {
    (s[5 * y], s[5 * y + 1], s[5 * y + 2], s[5 * y + 3], s[5 * y + 4])
  }

  function FromRows(r0: Row, r1: Row, r2: Row, r3: Row, r4: Row): Lanes {
    [r0.0, r0.1, r0.2, r0.3, r0.4, r1.0, r1.1, r1.2, r1.3, r1.4, r2.0, r2.1, r2.2, r2.3, r2.4,
     r3.0, r3.1, r3.2, r3.3, r3.4, r4.0, r4.1, r4.2, r4.3, r4.4]
  }

  /** Each row through its own gates. */
  function KhiRow(y: nat, r: Row): Row {
    match y
    case 0 => Khi0(r.0, r.1, r.2, r.3, r.4)
    case 1 => Khi1(r.0, r.1, r.2, r.3, r.4)
    case 2 => Khi2(r.0, r.1, r.2, r.3, r.4)
    case 3 => Khi3(r.0, r.1, r.2, r.3, r.4)
    case _ => Khi4(r.0, r.1, r.2, r.3, r.4)
  }

  function Khi(s: Lanes): Lanes {
    FromRows(KhiRow(0, RowOf(s, 0)), KhiRow(1, RowOf(s, 1)), KhiRow(2, RowOf(s, 2)),
             KhiRow(3, RowOf(s, 3)), KhiRow(4, RowOf(s, 4)))
  }

  /** One round with those gates, lanes in their logical places. */
  function OptRound(s: Lanes, rc: Lane): Lanes {
    Iota(Khi(Pi(Rho(Theta(s)))), rc)
  }

  // ---------------------------------------------------------------- complemented lanes

  /** Says of every lane index whether that lane is complemented. */
  type Mask = nat -> bool

  function Flip(x: Lane, b: bool): Lane { if b then Not(x) else x }

  function Masked(s: Lanes, m: Mask): Lanes {
    seq(25, i requires 0 <= i < 25 => Flip(s[i], m(i)))
  }

  // Between rounds; after theta and rho; after pi.  After the gates it is the
  // first again.

  predicate MASK(i: nat) {
    i == 1 || i == 2 || i == 8 || i == 12 || i == 17 || i == 20
  }

  predicate MASK_THETA(i: nat) {
    i < 4 || i == 5 || i == 10 || i == 12 || i == 13 || i == 15 || i == 17 || i == 18 || i == 23
  }

  predicate MASK_PI(i: nat) {
    || i == 0 || i == 2 || i == 3 || i == 5 || i == 7 || i == 10 || i == 12
    || i == 16 || i == 18 || i == 19 || i == 20 || i == 23
  }

  lemma FlipXor(x: Lane, y: Lane, b: bool, c: bool)
    ensures Xor(Flip(x, b), Flip(y, c)) == Flip(Xor(x, y), b != c)
  {
    hide Xor, Not;
    if b && c {
      NotXorNot(x, y);
    } else if b {
      NotXor(x, y);
    } else if c {
      XorNot(x, y);
    }
  }

  lemma FlipRol(x: Lane, b: bool, k: nat)
    ensures Rol(Flip(x, b), k) == Flip(Rol(x, k), b)
  {
    hide Not, Rol1;
    RolNot(x, k);
  }

  // ---------------------------------------------------------------- theta, rho, pi under the mask

  /** The parity of a column of the mask. */
  function MaskColumn(m: Mask, x: nat): bool
    requires x < 5
  {
    ((((m(x) != m(x + 5)) != m(x + 10)) != m(x + 15)) != m(x + 20))
  }

  lemma FlipXor5(a: Lane, b: Lane, c: Lane, d: Lane, e: Lane, p: bool, q: bool, r: bool, t: bool, u: bool)
    ensures Xor(Xor(Xor(Xor(Flip(a, p), Flip(b, q)), Flip(c, r)), Flip(d, t)), Flip(e, u)) ==
      Flip(Xor(Xor(Xor(Xor(a, b), c), d), e), (((p != q) != r) != t) != u)
  {
    hide Xor, Not, Flip;
    FlipXor(a, b, p, q);
    FlipXor(Xor(a, b), c, p != q, r);
    FlipXor(Xor(Xor(a, b), c), d, (p != q) != r, t);
    FlipXor(Xor(Xor(Xor(a, b), c), d), e, ((p != q) != r) != t, u);
  }

  lemma MaskedAt(s: Lanes, m: Mask, i: nat)
    requires i < 25
    ensures Masked(s, m)[i] == Flip(s[i], m(i))
  {
    hide Flip;
  }

  lemma MaskedColumn(s: Lanes, m: Mask, x: nat)
    requires x < 5
    ensures Column(Masked(s, m), x) == Flip(Column(s, x), MaskColumn(m, x))
  {
    hide Xor, Not, Flip, Masked;
    MaskedAt(s, m, x);
    MaskedAt(s, m, x + 5);
    MaskedAt(s, m, x + 10);
    MaskedAt(s, m, x + 15);
    MaskedAt(s, m, x + 20);
    FlipXor5(s[x], s[x + 5], s[x + 10], s[x + 15], s[x + 20], m(x), m(x + 5), m(x + 10), m(x + 15), m(x + 20));
  }

  lemma MaskedThetaLane(s: Lanes, m: Mask, x: nat)
    requires x < 5
    ensures ThetaLane(Masked(s, m), x) ==
      Flip(ThetaLane(s, x), MaskColumn(m, (x + 4) % 5) != MaskColumn(m, (x + 1) % 5))
  {
    hide Xor, Not, Flip, Rol, Column, MaskColumn;
    var l, r := (x + 4) % 5, (x + 1) % 5;
    MaskedColumn(s, m, l);
    MaskedColumn(s, m, r);
    FlipRol(Column(s, r), MaskColumn(m, r), 1);
    FlipXor(Column(s, l), Rol(Column(s, r), 1), MaskColumn(m, l), MaskColumn(m, r));
  }

  lemma MaskedTheta(s: Lanes)
    ensures Theta(Masked(s, MASK)) == Masked(Theta(s), MASK_THETA)
  {
    hide Xor, Not, Flip, ThetaLane;
    forall i | 0 <= i < 25
      ensures Theta(Masked(s, MASK))[i] == Masked(Theta(s), MASK_THETA)[i]
    {
      var x := i % 5;
      var d := MaskColumn(MASK, (x + 4) % 5) != MaskColumn(MASK, (x + 1) % 5);
      MaskedThetaLane(s, MASK, x);
      FlipXor(s[i], ThetaLane(s, x), MASK(i), d);
      ThetaMask(i);
    }
  }

  lemma MaskParity(x: nat)
    requires x < 5
    ensures MaskColumn(MASK, x) == (x != 4)
  {
  }

  lemma ThetaMask(i: nat)
    requires i < 25
    ensures (MASK(i) != (MaskColumn(MASK, (i % 5 + 4) % 5) != MaskColumn(MASK, (i % 5 + 1) % 5))) == MASK_THETA(i)
  {
    hide MaskColumn;
    MaskParity((i % 5 + 4) % 5);
    MaskParity((i % 5 + 1) % 5);
    LaneIndex(i);
  }

  lemma MaskedRho(s: Lanes)
    ensures Rho(Masked(s, MASK_THETA)) == Masked(Rho(s), MASK_THETA)
  {
    hide Not, Flip, Rol;
    forall i | 0 <= i < 25
      ensures Rho(Masked(s, MASK_THETA))[i] == Masked(Rho(s), MASK_THETA)[i]
    {
      FlipRol(s[i], MASK_THETA(i), OFFSETS[i]);
    }
  }

  lemma MaskedPi(s: Lanes)
    ensures Pi(Masked(s, MASK_THETA)) == Masked(Pi(s), MASK_PI)
  {
    hide Not, Flip;
    forall i | 0 <= i < 25
      ensures Pi(Masked(s, MASK_THETA))[i] == Masked(Pi(s), MASK_PI)[i]
    {
      PiMask(i);
    }
  }

  lemma PiMask(i: nat)
    requires i < 25
    ensures MASK_THETA(PI[i]) == MASK_PI(i)
  {
    LaneIndex(i);
  }

  lemma LaneIndex(i: nat)
    requires i < 25
    ensures i == 0 || i == 1 || i == 2 || i == 3 || i == 4 || i == 5 || i == 6 || i == 7 || i == 8 || i == 9
         || i == 10 || i == 11 || i == 12 || i == 13 || i == 14 || i == 15 || i == 16 || i == 17 || i == 18
         || i == 19 || i == 20 || i == 21 || i == 22 || i == 23 || i == 24
  {
  }

  // ---------------------------------------------------------------- the gates under the mask

  lemma OrGate(a: Lane, b: Lane, c: Lane, f: bool)
    ensures Xo(Flip(a, f), b, Not(c)) == Flip(ChiGate(a, b, c), !f)
  {
    hide Xor, Or, And, Not;
    OrNot(b, c);
    if f {
      NotXorNot(a, And(Not(b), c));
    } else {
      XorNot(a, And(Not(b), c));
    }
  }

  lemma AndGate(a: Lane, b: Lane, c: Lane, f: bool)
    ensures Xa(Flip(a, f), Not(b), c) == Flip(ChiGate(a, b, c), f)
  {
    hide Xor, Or, And, Not;
    if f {
      NotXor(a, And(Not(b), c));
    }
  }

  /** The row of plain outputs. */
  function ChiRow(a: Lane, b: Lane, c: Lane, d: Lane, e: Lane): Row {
    (ChiGate(a, b, c), ChiGate(b, c, d), ChiGate(c, d, e), ChiGate(d, e, a), ChiGate(e, a, b))
  }

  lemma Khi0Masked(a: Lane, b: Lane, c: Lane, d: Lane, e: Lane)
    ensures var (p, q, r, s, t) := ChiRow(a, b, c, d, e);
      Khi0(Not(a), b, Not(c), Not(d), e) == (p, Not(q), Not(r), s, t)
  {
    hide Xo, Xa, Not, ChiGate;
    NotNot(c);
    OrGate(a, b, c, true);
    OrGate(b, c, d, false);
    AndGate(c, d, e, true);
    OrGate(d, e, a, true);
    AndGate(e, a, b, false);
  }

  lemma Khi1Masked(a: Lane, b: Lane, c: Lane, d: Lane, e: Lane)
    ensures var (p, q, r, s, t) := ChiRow(a, b, c, d, e);
      Khi1(Not(a), b, Not(c), d, e) == (p, q, r, Not(s), t)
  {
    hide Xo, Xa, Not, ChiGate;
    OrGate(a, b, c, true);
    Khi1Second(b, c, d);
    OrGate(c, d, e, true);
    OrGate(d, e, a, false);
    AndGate(e, a, b, false);
  }

  lemma Khi1Second(b: Lane, c: Lane, d: Lane)
    ensures Xa(b, Not(c), d) == ChiGate(b, c, d)
  {
  }

  lemma Khi2Masked(a: Lane, b: Lane, c: Lane, d: Lane, e: Lane)
    ensures var (p, q, r, s, t) := ChiRow(a, b, c, d, e);
      Khi2(Not(a), b, Not(c), d, e) == (p, q, Not(r), s, t)
  {
    hide Xo, Xa, Not, ChiGate;
    OrGate(a, b, c, true);
    Khi1Second(b, c, d);
    AndGate(c, d, e, true);
    OrGate(d, e, a, true);
    AndGate(e, a, b, false);
  }

  lemma Khi3Masked(a: Lane, b: Lane, c: Lane, d: Lane, e: Lane)
    ensures var (p, q, r, s, t) := ChiRow(a, b, c, d, e);
      Khi3(a, Not(b), c, Not(d), Not(e)) == (p, q, Not(r), s, t)
  {
    hide Xo, Xa, Not, ChiGate;
    NotNot(d);
    AndGate(a, b, c, false);
    OrGate(b, c, d, true);
    OrGate(c, d, e, false);
    AndGate(d, e, a, false);
    OrGate(e, a, b, true);
  }

  lemma Khi4Masked(a: Lane, b: Lane, c: Lane, d: Lane, e: Lane)
    ensures var (p, q, r, s, t) := ChiRow(a, b, c, d, e);
      Khi4(Not(a), b, c, Not(d), e) == (Not(p), q, r, s, t)
  {
    hide Xo, Xa, Not, ChiGate;
    AndGate(a, b, c, true);
    OrGate(b, c, d, true);
    AndGate(c, d, e, false);
    OrGate(d, e, a, true);
    AndGate(e, a, b, false);
  }

  function FlipRow(r: Row, m: Mask, y: nat): Row {
    (Flip(r.0, m(5 * y)), Flip(r.1, m(5 * y + 1)), Flip(r.2, m(5 * y + 2)), Flip(r.3, m(5 * y + 3)),
     Flip(r.4, m(5 * y + 4)))
  }

  lemma FlipCases()
    ensures forall x: Lane :: Flip(x, true) == Not(x)
    ensures forall x: Lane :: Flip(x, false) == x
  {
  }

  lemma MaskedRow(y: nat, r: Row)
    requires y < 5
    ensures KhiRow(y, FlipRow(r, MASK_PI, y)) == FlipRow(ChiRow(r.0, r.1, r.2, r.3, r.4), MASK, y)
  {
    hide KhiRow, FlipRow, ChiRow;
    match y
    case 0 => Row0Masked(r);
    case 1 => Row1Masked(r);
    case 2 => Row2Masked(r);
    case 3 => Row3Masked(r);
    case _ => Row4Masked(r);
  }

  lemma Row0Masked(r: Row)
    ensures KhiRow(0, FlipRow(r, MASK_PI, 0)) == FlipRow(ChiRow(r.0, r.1, r.2, r.3, r.4), MASK, 0)
  {
    hide Not, Flip, ChiGate, Khi0;
    FlipCases();
    Khi0Masked(r.0, r.1, r.2, r.3, r.4);
  }

  lemma Row1Masked(r: Row)
    ensures KhiRow(1, FlipRow(r, MASK_PI, 1)) == FlipRow(ChiRow(r.0, r.1, r.2, r.3, r.4), MASK, 1)
  {
    hide Not, Flip, ChiGate, Khi1;
    FlipCases();
    Khi1Masked(r.0, r.1, r.2, r.3, r.4);
  }

  lemma Row2Masked(r: Row)
    ensures KhiRow(2, FlipRow(r, MASK_PI, 2)) == FlipRow(ChiRow(r.0, r.1, r.2, r.3, r.4), MASK, 2)
  {
    hide Not, Flip, ChiGate, Khi2;
    FlipCases();
    Khi2Masked(r.0, r.1, r.2, r.3, r.4);
  }

  lemma Row3Masked(r: Row)
    ensures KhiRow(3, FlipRow(r, MASK_PI, 3)) == FlipRow(ChiRow(r.0, r.1, r.2, r.3, r.4), MASK, 3)
  {
    hide Not, Flip, ChiGate, Khi3;
    FlipCases();
    Khi3Masked(r.0, r.1, r.2, r.3, r.4);
  }

  lemma Row4Masked(r: Row)
    ensures KhiRow(4, FlipRow(r, MASK_PI, 4)) == FlipRow(ChiRow(r.0, r.1, r.2, r.3, r.4), MASK, 4)
  {
    hide Not, Flip, ChiGate, Khi4;
    FlipCases();
    Khi4Masked(r.0, r.1, r.2, r.3, r.4);
  }

  lemma RowOfMasked(s: Lanes, m: Mask, y: nat)
    requires y < 5
    ensures RowOf(Masked(s, m), y) == FlipRow(RowOf(s, y), m, y)
  {
    hide Flip;
  }

  lemma RowOfChi(s: Lanes, y: nat)
    requires y < 5
    ensures var r := RowOf(s, y); RowOf(Chi(s), y) == ChiRow(r.0, r.1, r.2, r.3, r.4)
  {
    hide Chi, ChiGate;
    var c := Chi(s);
    assert c[5 * y] == ChiGate(s[5 * y], s[5 * y + 1], s[5 * y + 2]) by { ChiAt(s, 0, 1, 2, y); }
    assert c[5 * y + 1] == ChiGate(s[5 * y + 1], s[5 * y + 2], s[5 * y + 3]) by { ChiAt(s, 1, 2, 3, y); }
    assert c[5 * y + 2] == ChiGate(s[5 * y + 2], s[5 * y + 3], s[5 * y + 4]) by { ChiAt(s, 2, 3, 4, y); }
    assert c[5 * y + 3] == ChiGate(s[5 * y + 3], s[5 * y + 4], s[5 * y]) by { ChiAt(s, 3, 4, 0, y); }
    assert c[5 * y + 4] == ChiGate(s[5 * y + 4], s[5 * y], s[5 * y + 1]) by { ChiAt(s, 4, 0, 1, y); }
  }

  lemma ChiAt(s: Lanes, x: nat, next: nat, afterNext: nat, y: nat)
    requires x < 5 && y < 5 && next == (x + 1) % 5 && afterNext == (x + 2) % 5
    ensures Chi(s)[5 * y + x] == ChiGate(s[5 * y + x], s[5 * y + next], s[5 * y + afterNext])
  {
    hide ChiGate;
    assert (5 * y + x) % 5 == x && (5 * y + x) / 5 == y;
  }

  lemma RowsDetermine(s: Lanes, t: Lanes)
    requires forall y :: 0 <= y < 5 ==> RowOf(s, y) == RowOf(t, y)
    ensures s == t
  {
    forall i | 0 <= i < 25 ensures s[i] == t[i] {
      assert RowOf(s, i / 5) == RowOf(t, i / 5);
      assert i == 5 * (i / 5) + i % 5;
    }
  }

  lemma RowOfKhi(s: Lanes, y: nat)
    requires y < 5
    ensures RowOf(Khi(s), y) == KhiRow(y, RowOf(s, y))
  {
    hide KhiRow;
    if y == 0 {
    } else if y == 1 {
    } else if y == 2 {
    } else if y == 3 {
    } else {
    }
  }

  /** The gates on complemented lanes give the plain chi step, complemented
      as the next round expects it. */
  lemma MaskedKhi(s: Lanes)
    ensures Khi(Masked(s, MASK_PI)) == Masked(Chi(s), MASK)
  {
    hide Khi, KhiRow, Masked, Chi, ChiRow, FlipRow, RowOf;
    var k, c := Khi(Masked(s, MASK_PI)), Masked(Chi(s), MASK);
    forall y | 0 <= y < 5 ensures RowOf(k, y) == RowOf(c, y) {
      RowOfKhi(Masked(s, MASK_PI), y);
      RowOfMasked(s, MASK_PI, y);
      MaskedRow(y, RowOf(s, y));
      RowOfChi(s, y);
      RowOfMasked(Chi(s), MASK, y);
    }
    RowsDetermine(k, c);
  }

  lemma MaskedIota(s: Lanes, rc: Lane)
    ensures Iota(Masked(s, MASK), rc) == Masked(Iota(s, rc), MASK)
  {
    hide Xor, Not, Flip;
    FlipCases();
    assert !MASK(0);
    var a, b := Iota(Masked(s, MASK), rc), Masked(Iota(s, rc), MASK);
    assert a[0] == Xor(Flip(s[0], MASK(0)), rc) && b[0] == Flip(Xor(s[0], rc), MASK(0));
    forall i | 0 <= i < 25 ensures a[i] == b[i] {
    }
  }

  /** A round of the optimised form on complemented lanes is a plain round. */
  lemma MaskedRound(s: Lanes, rc: Lane)
    ensures OptRound(Masked(s, MASK), rc) == Masked(Round(s, rc), MASK)
  {
    hide Theta, Rho, Pi, Khi, Chi, Iota, Masked;
    MaskedTheta(s);
    MaskedRho(Theta(s));
    MaskedPi(Rho(Theta(s)));
    MaskedKhi(Pi(Rho(Theta(s))));
    MaskedIota(Chi(Pi(Rho(Theta(s)))), rc);
  }

  /** At every round boundary the lanes XORed with the mask are the plain ones. */
  lemma {:induction false} MaskedRounds(s: Lanes, from: nat, to: nat)
    requires from <= to <= 24
    ensures OptRounds(Masked(s, MASK), from, to) == Masked(Rounds(s, from, to), MASK)
  {
    hide OptRound, Round, Masked;
    if from < to {
      MaskedRounds(s, from, to - 1);
      MaskedRound(Rounds(s, from, to - 1), RC[to - 1]);
    }
  }

  function OptRounds(s: Lanes, from: nat, to: nat): Lanes
    requires from <= to <= 24
  {
    if from == to then s else OptRound(OptRounds(s, from, to - 1), RC[to - 1])
  }

  /** Complementing twice is complementing not at all. */
  lemma MaskedTwice(s: Lanes)
    ensures Masked(Masked(s, MASK), MASK) == s
  {
    hide Not;
    var t := Masked(Masked(s, MASK), MASK);
    forall i | 0 <= i < 25 ensures t[i] == s[i] {
      NotNot(s[i]);
      assert t[i] == Flip(Flip(s[i], MASK(i)), MASK(i));
    }
  }

  // ---------------------------------------------------------------- the offsets

  /** The offset at step t of the walk from (1, 0) is the triangular number of
      t + 1. */
  lemma OffsetsAreTriangular(t: nat)
    requires t < 24
    ensures var (x, y) := Fips.Walk(t); OFFSETS[x + 5 * y] == ((t + 1) * (t + 2) / 2) % 64
  {
    hide Fips.Walk;
    WalkSteps();
    LaneIndex(t);
  }

  lemma WalkSteps()
    ensures Fips.Walk(0) == (1, 0) && Fips.Walk(1) == (0, 2) && Fips.Walk(2) == (2, 1) && Fips.Walk(3) == (1, 2)
    ensures Fips.Walk(4) == (2, 3) && Fips.Walk(5) == (3, 3) && Fips.Walk(6) == (3, 0) && Fips.Walk(7) == (0, 1)
    ensures Fips.Walk(8) == (1, 3) && Fips.Walk(9) == (3, 1) && Fips.Walk(10) == (1, 4) && Fips.Walk(11) == (4, 4)
    ensures Fips.Walk(12) == (4, 0) && Fips.Walk(13) == (0, 3) && Fips.Walk(14) == (3, 4) && Fips.Walk(15) == (4, 3)
    ensures Fips.Walk(16) == (3, 2) && Fips.Walk(17) == (2, 2) && Fips.Walk(18) == (2, 0) && Fips.Walk(19) == (0, 4)
    ensures Fips.Walk(20) == (4, 2) && Fips.Walk(21) == (2, 4) && Fips.Walk(22) == (4, 1) && Fips.Walk(23) == (1, 1)
  {
  }

  // ---------------------------------------------------------------- the round constants

  /** The shift register of section 3.2.5 of FIPS 202, its first bit lowest. */
  function Shift(x: bv8): bv8 { (x << 1) ^ (if x & 0x80 != 0 then 0x71 else 0) }

  function Register(t: nat): bv8 {
    if t == 0 then 1 else Shift(Register(t - 1))
  }

  function Out(x: bv8): Lane { if x & 1 != 0 then 1 else 0 }

  /** The constant put together from seven outputs from register x on. */
  function FromRegister(x0: bv8): Lane {
    var x1 := Shift(x0);
    var x2 := Shift(x1);
    var x3 := Shift(x2);
    var x4 := Shift(x3);
    var x5 := Shift(x4);
    var x6 := Shift(x5);
    Out(x0) | (Out(x1) << 1) | (Out(x2) << 3) | (Out(x3) << 7) | (Out(x4) << 15) | (Out(x5) << 31) | (Out(x6) << 63)
  }

  /** The register before every round. */
  const REGISTERS: seq<bv8> := [
    0x01, 0x80, 0xD8, 0x1A, 0xDF, 0x09, 0x35, 0x4F, 0xCA, 0x70, 0x41, 0xEC, 0xD5,
    0xCD, 0x63, 0xAB, 0xAA, 0x2A, 0xF2, 0xE8, 0x37, 0x3E, 0x0B, 0x44, 0x8E]

  lemma RegisterRound(i: nat)
    requires i < 24
    ensures |REGISTERS| == 25
    ensures REGISTERS[i + 1] == Shift(Shift(Shift(Shift(Shift(Shift(Shift(REGISTERS[i])))))))
    ensures RC[i] == FromRegister(REGISTERS[i])
  {
    LaneIndex(i);
  }

  lemma {:induction false} RegisterBefore(i: nat)
    requires i <= 24
    ensures |REGISTERS| == 25 && Register(7 * i) == REGISTERS[i]
  {
    hide Shift, REGISTERS;
    if i == 0 {
      FirstRegister();
    } else {
      RegisterBefore(i - 1);
      RegisterRound(i - 1);
      SevenShifts(7 * (i - 1));
    }
  }

  lemma SevenShifts(t: nat)
    ensures Register(t + 7) == Shift(Shift(Shift(Shift(Shift(Shift(Shift(Register(t))))))))
  {
    hide Shift;
    assert Register(t + 2) == Shift(Shift(Register(t)));
    assert Register(t + 4) == Shift(Shift(Register(t + 2)));
    assert Register(t + 6) == Shift(Shift(Register(t + 4)));
  }

  lemma FirstRegister()
    ensures |REGISTERS| == 25 && REGISTERS[0] == 1
  {
  }

  /** The round constants are those the shift register generates. */
  lemma ConstantsAreGenerated(i: nat)
    requires i < 24
    ensures RC[i] == FromRegister(Register(7 * i))
  {
    hide Shift, REGISTERS, RC, FromRegister;
    RegisterBefore(i);
    RegisterRound(i);
  }
}
