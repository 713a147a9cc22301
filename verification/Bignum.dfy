/** Big numbers as byte strings (src/bignum.h).  OpenSSL's exchange format is
    sign and magnitude, highest byte first, the sign in the top bit; its four
    size bytes are left out here. */
module Bignum {
  import opened Arith
  import opened Radix

  type Byte = b: nat | b < 256

  function Abs(n: int): nat { if n < 0 then -n else n }
  function SignBit(neg: bool): Byte { if neg then 0x80 else 0 }

  /** The number that a payload stands for. */
  function FromMpi(p: seq<Byte>): int {
    if p == [] then 0
    else if p[0] >= 0x80 then 0 - BigEndian(256, [p[0] - 0x80] + p[1..])
    else BigEndian(256, p)
  }

  /** The shortest payload of a number. */
  function ToMpi(n: int): seq<Byte> {
    var d := Bytes(Abs(n));
    if d == [] then []
    else if d[0] >= 0x80 then [SignBit(n < 0)] + d
    else [d[0] + SignBit(n < 0)] + d[1..]
  }

  /** The bytes of a number, highest first. */
  function Bytes(n: nat): (r: seq<Byte>) {
    ValueOfDigits(256, n);
    AsBytes(Reversed(Digits(256, n)))
  }

  function AsBytes(ds: seq<nat>): (r: seq<Byte>)
    requires AreDigits(256, ds)
    ensures r == ds
  {
    seq(|ds|, i requires 0 <= i < |ds| => ds[i])
  }

  lemma BytesValue(n: nat)
    ensures BigEndian(256, Bytes(n)) == n && (Bytes(n) == [] || Bytes(n)[0] != 0)
    ensures Bytes(n) == [] <==> n == 0
  {
    BigEndianOfDigits(256, n);
  }

  lemma BytesUnique(ds: seq<Byte>)
    requires ds == [] || ds[0] != 0
    ensures Bytes(BigEndian(256, ds)) == ds
  {
    DigitsOfBigEndian(256, ds);
  }

  lemma ZeroInFront(ds: seq<Byte>)
    ensures BigEndian(256, [0] + ds) == BigEndian(256, ds)
  {
    assert Zeros(1) == [0];
    BigEndianOfZeros(256, 1, ds);
  }

  lemma MpiRoundTrip(n: int)
    ensures FromMpi(ToMpi(n)) == n
  {
    hide Bytes, BigEndian;
    var d := Bytes(Abs(n));
    BytesValue(Abs(n));
    if d != [] {
      if d[0] >= 0x80 {
        ZeroInFront(d);
        assert ([SignBit(n < 0)] + d)[1..] == d;
      } else {
        var p: seq<Byte> := [d[0] + SignBit(n < 0)] + d[1..];
        assert p[1..] == d[1..] && d == [d[0]] + d[1..];
      }
    }
  }

  /** No byte can be left out of a payload: its first byte holds more than the
      sign, or is there because the next one uses its top bit. */
  predicate Minimal(p: seq<Byte>) {
    p == [] || p[0] % 0x80 != 0 || (|p| >= 2 && p[1] >= 0x80)
  }

  lemma ToMpiMinimal(n: int)
    ensures Minimal(ToMpi(n))
  {
    hide Bytes;
    BytesValue(Abs(n));
  }

  /** A payload comes back exactly if it is minimal. */
  lemma MpiCanonical(p: seq<Byte>)
    ensures ToMpi(FromMpi(p)) == p <==> Minimal(p)
  {
    hide Bytes, BigEndian;
    ToMpiMinimal(FromMpi(p));
    if Minimal(p) && p != [] {
      var mag: seq<Byte> := [p[0] % 0x80] + p[1..];
      assert p == [p[0]] + p[1..];
      if p[0] % 0x80 == 0 {
        ZeroInFront(p[1..]);
        BytesUnique(p[1..]);
      } else {
        BytesUnique(mag);
      }
      PositiveWhenNotEmpty(if p[0] % 0x80 == 0 then p[1..] else mag);
    } else if p == [] {
      BytesValue(0);
    }
  }

  lemma PositiveWhenNotEmpty(ds: seq<Byte>)
    requires ds != [] && ds[0] != 0
    ensures BigEndian(256, ds) > 0
  {
    BytesUnique(ds);
    BytesValue(BigEndian(256, ds));
  }

  // ---------------------------------------------------------------- setvch, getvch, setint64

  function FromVch(v: seq<Byte>): int { FromMpi(Reversed(v)) }
  function ToVch(n: int): seq<Byte> { Reversed(ToMpi(n)) }

  lemma VchRoundTrip(n: int)
    ensures FromVch(ToVch(n)) == n
  {
    ReversedTwice(ToMpi(n));
    MpiRoundTrip(n);
  }

  /** A byte vector, lowest byte first, comes back exactly if it is minimal. */
  lemma VchCanonical(v: seq<Byte>)
    ensures ToVch(FromVch(v)) == v <==> Minimal(Reversed(v))
  {
    ReversedTwice(v);
    ReversedTwice(ToMpi(FromVch(v)));
    MpiCanonical(Reversed(v));
  }

  /** A byte below: 256 times the number, and the byte with its sign, which is
      in the top bit of the last one. */
  lemma LowestByteFirst(b: Byte, v: seq<Byte>)
    ensures v == [] ==> FromVch([b] + v) == if b >= 0x80 then 0x80 - b else b
    ensures v != [] ==> FromVch([b] + v) == 256 * FromVch(v) + (if v[|v| - 1] >= 0x80 then 0 - b else b)
  {
    hide BigEndian;
    var p := Reversed(v);
    assert Reversed([b] + v) == p + [b];
    if v == [] {
      assert p + [b] == [b];
      OneByte(b);
    } else {
      BigEndianSnoc(256, p, b);
      if p[0] >= 0x80 {
        var q := [p[0] - 0x80] + p[1..];
        BigEndianSnoc(256, q, b);
        assert [(p + [b])[0] - 0x80] + (p + [b])[1..] == q + [b];
      }
    }
  }

  lemma OneByte(b: Byte)
    ensures FromMpi([b]) == if b >= 0x80 then 0x80 - b else b
  {
    hide BigEndian;
    if b >= 0x80 {
      assert [b - 0x80] + [b][1..] == [b - 0x80];
      OneDigit(256, b - 0x80);
    } else {
      OneDigit(256, b);
    }
  }

  const P56: nat := 0x100_0000_0000_0000
  const P64: nat := 0x1_0000_0000_0000_0000

  function Pow(k: nat): (r: nat)
    ensures r > 0
  {
    if k == 0 then 1 else 256 * Pow(k - 1)
  }

  /** The top byte of a 64-bit register, and the register shifted by a byte. */
  lemma TopByte(rest: nat, i: nat)
    requires i < 8 && rest < Pow(8 - i)
    ensures rest * Pow(i) < P64
    ensures rest * Pow(i) / P56 == rest / Pow(7 - i) < 256
    ensures rest * Pow(i) * 256 % P64 == rest % Pow(7 - i) * Pow(i + 1)
    ensures rest % Pow(7 - i) < Pow(7 - i)
  {
    hide Pow;
    PowersMultiply(i);
    ShiftedDown(rest, Pow(i), Pow(7 - i));
    ShiftedDown(rest, Pow(i + 1), Pow(7 - i));
    assert rest * Pow(i + 1) == rest * Pow(i) * 256;
    Below(rest, Pow(i), Pow(7 - i));
  }

  lemma PowersMultiply(i: nat)
    requires i < 8
    ensures Pow(i) * Pow(7 - i) == P56 && Pow(i + 1) * Pow(7 - i) == P64
    ensures Pow(i + 1) == 256 * Pow(i) && Pow(8 - i) == 256 * Pow(7 - i)
  {
    Powers();
    hide Pow;
    assert i == 0 || i == 1 || i == 2 || i == 3 || i == 4 || i == 5 || i == 6 || i == 7;
  }

  lemma Below(n: nat, a: nat, b: nat)
    requires n < 256 * b && a * b == P56
    ensures n * a < P64 && n / b < 256
  {
    MulGap(256 * b - n, a);
    assert 256 * b * a == n * a + (256 * b - n) * a;
    assert 256 * b * a == 256 * (a * b);
    var q := n / b;
    QuotientFits(n, b);
    if q >= 256 {
      MulMonotone(256, q, b);
      assert false;
    }
  }

  lemma ShiftedDown(n: nat, a: nat, b: nat)
    requires a > 0 && b > 0
    ensures a * b > 0 && n * a / (a * b) == n / b && n * a % (a * b) == n % b * a
  {
    var q, r := n / b, n % b;
    MulGap(b - r, a);
    assert a * b == r * a + (b - r) * a;
    assert n * a == (q * b + r) * a == q * (a * b) + r * a;
    DivModUnique(n * a, a * b, q, r * a);
  }

  lemma Powers()
    ensures Pow(0) == 1 && Pow(1) == 0x100 && Pow(2) == 0x1_0000 && Pow(3) == 0x100_0000
    ensures Pow(4) == 0x1_0000_0000 && Pow(5) == 0x100_0000_0000 && Pow(6) == 0x1_0000_0000_0000
    ensures Pow(7) == P56 && Pow(8) == P64
  {
    assert Pow(4) == 256 * Pow(3) && Pow(8) == 256 * Pow(7) && Pow(7) == 256 * Pow(6) && Pow(6) == 256 * Pow(5);
  }

  /** A payload under construction: sign and magnitude so far. */
  ghost predicate Holds(p: seq<Byte>, neg: bool, mag: nat) {
    && p != [] && (p[0] >= 0x80 <==> neg)
    && BigEndian(256, [p[0] % 0x80] + p[1..]) == mag
  }

  lemma HoldsMore(p: seq<Byte>, neg: bool, mag: nat, c: Byte)
    requires Holds(p, neg, mag)
    ensures Holds(p + [c], neg, 256 * mag + c)
  {
    var q: seq<Byte> := [p[0] % 0x80] + p[1..];
    assert [(p + [c])[0] % 0x80] + (p + [c])[1..] == q + [c];
    BigEndianSnoc(256, q, c);
  }

  lemma HoldsFirst(neg: bool, c: Byte)
    requires c != 0
    ensures c >= 0x80 ==> Holds([SignBit(neg), c], neg, c)
    ensures c < 0x80 ==> Holds([c + SignBit(neg)], neg, c)
  {
    BigEndianSnoc(256, [], c);
    assert BigEndian(256, []) == 0;
    assert [] + [c] == [c];
    ZeroInFront([c]);
    assert [0] + [c] == [0, c];
    if c < 0x80 {
      var p: seq<Byte> := [c + SignBit(neg)];
      assert [p[0] % 0x80] + p[1..] == [c];
    }
  }

  /** One more byte of the magnitude; zeros in front are skipped, and the first
      byte that stays brings the sign with it. */
  method PutByte(p0: seq<Byte>, lead: bool, fNegative: bool, c0: Byte, ghost taken: nat)
      returns (p: seq<Byte>, fLeadingZeroes: bool)
    requires if lead then p0 == [] && taken == 0 else Holds(p0, fNegative, taken) && taken > 0
    ensures fLeadingZeroes == (lead && c0 == 0)
    ensures if fLeadingZeroes then p == [] else Holds(p, fNegative, 256 * taken + c0)
  {
    var c := c0;
    p, fLeadingZeroes := p0, lead;
    if fLeadingZeroes {
      if c == 0 {
        return;
      }
      HoldsFirst(fNegative, c);
      if c >= 0x80 {
        p := p + [SignBit(fNegative)];
      } else if fNegative {
        c := c + 0x80;
      }
      fLeadingZeroes := false;
    } else {
      HoldsMore(p, fNegative, taken, c);
    }
    p := p + [c];
  }

  /** With `taken` read from the top of a number, the register holds the rest. */
  ghost predicate Register(a: nat, n: nat, taken: nat, rest: nat, i: nat)
    requires i <= 8
  {
    rest < Pow(8 - i) && n == rest * Pow(i) && taken * Pow(8 - i) + rest == a
  }

  lemma RegisterStarts(a: nat)
    requires a < P64
    ensures Register(a, a, 0, a, 0)
  {
    Powers();
  }

  lemma RegisterMoves(a: nat, n: nat, taken: nat, rest: nat, i: nat)
    requires i < 8 && Register(a, n, taken, rest, i)
    ensures n / P56 < 256
    ensures Register(a, n * 256 % P64, 256 * taken + n / P56, rest % Pow(7 - i), i + 1)
  {
    TopByte(rest, i);
    TakeByte(taken, rest, i);
  }

  lemma RegisterEnds(a: nat, n: nat, taken: nat, rest: nat)
    requires Register(a, n, taken, rest, 8)
    ensures taken == a
  {
    Powers();
  }

  method SetInt64(sn: int) returns (bn: int)
    requires -0x8000_0000_0000_0000 <= sn < 0x8000_0000_0000_0000
    ensures bn == sn
  {
    hide Register, Pow, Holds;
    var fNegative := sn < 0;
    var n: nat := if fNegative then -(sn + 1) + 1 else sn;
    ghost var rest: nat := n;
    ghost var taken: nat := 0;
    RegisterStarts(n);
    var p: seq<Byte> := [];
    var fLeadingZeroes := true;
    for i := 0 to 8
      invariant Register(Abs(sn), n, taken, rest, i)
      invariant fLeadingZeroes ==> p == [] && taken == 0
      invariant !fLeadingZeroes ==> Holds(p, fNegative, taken) && taken > 0
    {
      RegisterMoves(Abs(sn), n, taken, rest, i);
      var c: Byte := n / P56;
      n := n * 256 % P64;
      p, fLeadingZeroes := PutByte(p, fLeadingZeroes, fNegative, c, taken);
      rest, taken := rest % Pow(7 - i), 256 * taken + c;
    }
    RegisterEnds(Abs(sn), n, taken, rest);
    bn := FromMpi(p);
    if !fLeadingZeroes {
      HoldsValue(p, fNegative, taken);
    }
  }

  lemma HoldsValue(p: seq<Byte>, neg: bool, mag: nat)
    requires Holds(p, neg, mag)
    ensures FromMpi(p) == if neg then 0 - mag else mag
  {
    assert [p[0]] + p[1..] == p;
  }

  lemma TakeByte(taken: nat, rest: nat, i: nat)
    requires i < 8 && rest < Pow(8 - i)
    ensures (256 * taken + rest / Pow(7 - i)) * Pow(7 - i) + rest % Pow(7 - i) == taken * Pow(8 - i) + rest
  {
    var q := Pow(7 - i);
    assert rest == rest / q * q + rest % q;
    assert Pow(8 - i) == 256 * q;
    assert (256 * taken + rest / q) * q == 256 * taken * q + rest / q * q;
    assert taken * (256 * q) == 256 * taken * q;
  }
}
