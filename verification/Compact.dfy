/** The compact form of difficulty targets (src/bignum.h): one byte of size,
    three bytes of sign and leading digits, in base 256. */
module Compact {
  import opened Arith
  import opened Bignum

  const MANTISSA: nat := 0x100_0000
  const SIGN: nat := 0x80_0000

  // ---------------------------------------------------------------- sizes

  /** How many bytes a magnitude has. */
  function NumBytes(n: nat): nat { if n == 0 then 0 else 1 + NumBytes(n / 256) }

  lemma {:induction false} NumBytesIs(n: nat)
    ensures n < Pow(NumBytes(n))
    ensures n > 0 ==> NumBytes(n) > 0 && Pow(NumBytes(n) - 1) <= n
  {
    if n > 0 {
      NumBytesIs(n / 256);
    }
  }

  /** n >> 8k, and n << 8k. */
  function Down(n: nat, k: nat): nat { if k == 0 then n else Down(n / 256, k - 1) }
  function Up(n: nat, k: nat): nat { n * Pow(k) }

  lemma {:induction false} DownBetween(n: nat, k: nat)
    ensures Up(Down(n, k), k) <= n < Up(Down(n, k) + 1, k)
  {
    if k > 0 {
      DownBetween(n / 256, k - 1);
      BetweenByte(n, Down(n, k), Pow(k - 1));
    } else {
      assert n * Pow(0) == n && (n + 1) * Pow(0) == n + 1;
    }
  }

  lemma BetweenByte(n: nat, q: nat, p: nat)
    requires q * p <= n / 256 < (q + 1) * p
    ensures q * (256 * p) <= n < (q + 1) * (256 * p)
  {
    var a, b := q * p, (q + 1) * p;
    assert q * (256 * p) == 256 * a && (q + 1) * (256 * p) == 256 * b;
  }

  lemma DownIs(n: nat, k: nat)
    ensures Down(n, k) == n / Pow(k)
    ensures Up(Down(n, k), k) <= n < Up(Down(n, k) + 1, k)
  {
    DownBetween(n, k);
    QuotientIs(n, Pow(k), Down(n, k));
  }

  lemma QuotientIs(n: nat, d: nat, q: nat)
    requires d > 0 && q * d <= n < (q + 1) * d
    ensures n / d == q
  {
    assert (q + 1) * d == q * d + d;
    DivModUnique(n, d, q, n - q * d);
  }

  /** The exponent: with it the leading digits leave the sign bit free. */
  function Exponent(n: nat): nat {
    var size := NumBytes(n);
    if 2 * n < Pow(size) then size else size + 1
  }

  /** It is the least size for twice the number. */
  lemma ExponentIs(n: nat)
    ensures 2 * n < Pow(Exponent(n))
    ensures n > 0 ==> Exponent(n) > 0 && Pow(Exponent(n) - 1) <= 2 * n
    ensures n == 0 ==> Exponent(n) == 0
  {
    NumBytesIs(n);
  }

  lemma {:induction false} PowMonotone(j: nat, k: nat)
    requires j <= k
    ensures Pow(j) <= Pow(k)
  {
    if j < k {
      PowMonotone(j, k - 1);
    }
  }

  lemma {:induction false} PowSum(j: nat, k: nat)
    ensures Pow(j + k) == Pow(j) * Pow(k)
  {
    if j > 0 {
      PowSum(j - 1, k);
      assert Pow(j + k) == 256 * Pow(j - 1 + k);
      assert 256 * (Pow(j - 1) * Pow(k)) == (256 * Pow(j - 1)) * Pow(k);
    }
  }

  lemma ExponentUnique(n: nat, e: nat)
    requires e > 0 && Pow(e - 1) <= 2 * n < Pow(e)
    ensures Exponent(n) == e
  {
    hide Pow, Exponent;
    ExponentIs(n);
    PowPositive(e - 1);
    if Exponent(n) < e {
      PowMonotone(Exponent(n), e - 1);
    } else if Exponent(n) > e {
      PowMonotone(e, Exponent(n) - 1);
    }
  }

  lemma PowPositive(k: nat)
    ensures Pow(k) >= 1
  {
  }

  lemma ExponentMonotone(m: nat, n: nat)
    requires m <= n
    ensures Exponent(m) <= Exponent(n)
  {
    hide Pow, Exponent;
    ExponentIs(m);
    ExponentIs(n);
    if Exponent(m) > Exponent(n) {
      PowMonotone(Exponent(n), Exponent(m) - 1);
    }
  }

  // ---------------------------------------------------------------- the form

  /** The leading digits for an exponent. */
  function Leading(n: nat, e: nat): nat {
    if e <= 3 then Up(n, 3 - e) else Down(n, e - 3)
  }

  function Compacted(n: int): nat {
    Exponent(Abs(n)) * MANTISSA + Leading(Abs(n), Exponent(Abs(n))) + (if n < 0 then SIGN else 0)
  }

  /** The magnitude for an exponent and leading digits. */
  function Magnitude(e: nat, word: nat): nat {
    if e <= 3 then Down(word, 3 - e) else Up(word, e - 3)
  }

  function Expanded(c: nat): int {
    var mag := Magnitude(c / MANTISSA, c % SIGN);
    if c % MANTISSA >= SIGN then 0 - mag else mag
  }

  /** What compacting keeps of a magnitude. */
  function Rounded(n: nat): nat { Magnitude(Exponent(n), Leading(n, Exponent(n))) }

  lemma LeadingFits(n: nat)
    ensures Leading(n, Exponent(n)) < SIGN
    ensures n > 0 ==> SIGN <= 256 * Leading(n, Exponent(n))
  {
    hide Pow, Exponent;
    var e := Exponent(n);
    ExponentIs(n);
    SmallPowers();
    if e <= 3 {
      PowSum(e, 3 - e);
      ScaledBound(n, Pow(e), Pow(3 - e));
      if n > 0 {
        PowSum(e - 1, 3 - e);
        ScaledFrom(n, Pow(e - 1), Pow(3 - e));
      }
    } else {
      var p, q := Pow(e - 3), Down(n, e - 3);
      PowPositive(e - 3);
      DownIs(n, e - 3);
      PowSum(3, e - 3);
      PowSum(2, e - 3);
      if q >= SIGN {
        TooMuch(q, SIGN, p);
      }
      if 2 * q + 2 <= 0x1_0000 {
        TooMuch(0x8000, q + 1, p);
      }
    }
  }

  lemma SmallPowers()
    ensures Pow(0) == 1 && Pow(1) == 0x100 && Pow(2) == 0x1_0000 && Pow(3) == MANTISSA
  {
  }

  lemma ScaledBound(n: nat, a: nat, b: nat)
    requires 2 * n < a && a * b == MANTISSA && b > 0
    ensures n * b < SIGN
  {
    assert (a - 2 * n) * b >= 1 * b by { MulAtLeast(b, a - 2 * n); assert b * (a - 2 * n) == (a - 2 * n) * b; }
    assert (a - 2 * n) * b == a * b - 2 * (n * b);
  }

  lemma ScaledFrom(n: nat, a: nat, b: nat)
    requires a <= 2 * n && a * b == 0x1_0000
    ensures 2 * (n * b) >= 0x1_0000
  {
    assert (2 * n - a) * b == 2 * (n * b) - a * b;
    assert (2 * n - a) * b >= 0;
  }

  lemma TooMuch(a: nat, b: nat, p: nat)
    requires a >= b
    ensures a * p >= b * p
  {
    assert (a - b) * p == a * p - b * p;
    assert (a - b) * p >= 0;
  }

  // ---------------------------------------------------------------- properties

  lemma CompactedParts(n: int)
    ensures Compacted(n) / MANTISSA == Exponent(Abs(n))
    ensures Compacted(n) % SIGN == Leading(Abs(n), Exponent(Abs(n)))
    ensures Compacted(n) % MANTISSA >= SIGN <==> n < 0
  {
    hide Exponent, Leading;
    LeadingFits(Abs(n));
    var e, w, sign := Exponent(Abs(n)), Leading(Abs(n), Exponent(Abs(n))), if n < 0 then 1 else 0;
    DivModUnique(Compacted(n), MANTISSA, e, w + sign * SIGN);
    DivModUnique(Compacted(n), SIGN, 2 * e + sign, w);
  }

  /** A word with size e, leading digits w and a sign stands for w * 256^(e - 3),
      rounded towards zero. */
  lemma ExpandedIs(e: nat, w: nat, neg: bool)
    requires w < SIGN
    ensures var n := Expanded(e * MANTISSA + (if neg then SIGN else 0) + w);
      && Abs(n) == (if e >= 3 then w * Pow(e - 3) else w / Pow(3 - e))
      && (n < 0 <==> neg && n != 0)
  {
    hide Down, Pow;
    var sign := if neg then 1 else 0;
    var c := e * MANTISSA + (if neg then SIGN else 0) + w;
    DivModUnique(c, MANTISSA, e, w + sign * SIGN);
    DivModUnique(c, SIGN, 2 * e + sign, w);
    if e <= 3 {
      DownIs(w, 3 - e);
    }
    PowZero(w);
  }

  lemma PowZero(w: nat)
    ensures Pow(0) == 1 && w * Pow(0) == w && w / Pow(0) == w
  {
  }

  /** Expanding gives the rounded magnitude and the sign back. */
  lemma ExpandCompacted(n: int)
    ensures Expanded(Compacted(n)) == if n < 0 then 0 - Rounded(Abs(n)) else Rounded(Abs(n))
  {
    hide Compacted, Exponent, Leading, Magnitude;
    CompactedParts(n);
  }

  /** Small numbers are kept, of others the leading digits. */
  lemma RoundedIs(n: nat)
    ensures var e := Exponent(n);
      if e <= 3 then Rounded(n) == n else Rounded(n) == Up(Down(n, e - 3), e - 3)
  {
    var e := Exponent(n);
    if e <= 3 {
      hide Exponent;
      DownIs(n * Pow(3 - e), 3 - e);
      DivModUnique(n * Pow(3 - e), Pow(3 - e), n, 0);
    }
  }

  /** Rounding is down, and by less than one part in 2^15. */
  lemma RoundedError(n: nat)
    ensures Rounded(n) <= n
    ensures n > 0 ==> (n - Rounded(n)) * 0x8000 < n
  {
    hide Exponent, Rounded, Pow;
    var e := Exponent(n);
    RoundedIs(n);
    if e > 3 {
      var p, q := Pow(e - 3), Down(n, e - 3);
      DownIs(n, e - 3);
      LeadingFits(n);
      assert q >= 0x8000 by { assert Leading(n, e) == q; ExponentIs(n); }
      assert (q + 1) * p == q * p + p;
      TooMuch(q, 0x8000, p);
    }
  }

  lemma SameExponent(n: nat)
    ensures Exponent(Rounded(n)) == Exponent(n)
  {
    hide Exponent, Rounded, Pow;
    var e := Exponent(n);
    RoundedIs(n);
    if e > 3 {
      var p, q := Pow(e - 3), Down(n, e - 3);
      ExponentIs(n);
      DownIs(n, e - 3);
      LeadingFits(n);
      assert Leading(n, e) == q;
      TooMuch(q, 0x8000, p);
      PowSum(2, e - 3);
      SmallPowers();
      ExponentUnique(Rounded(n), e);
    }
  }

  /** Compacting what was expanded gives the same word. */
  lemma CompactIsIdempotent(n: int)
    ensures Compacted(Expanded(Compacted(n))) == Compacted(n)
  {
    hide Exponent, Rounded, Leading, Expanded;
    ExpandCompacted(n);
    SameExponent(Abs(n));
    SameLeading(Abs(n));
    NotNegativeZero(Abs(n));
  }

  lemma SameLeading(n: nat)
    ensures Leading(Rounded(n), Exponent(n)) == Leading(n, Exponent(n))
  {
    hide Exponent, Rounded, Pow;
    var e := Exponent(n);
    RoundedIs(n);
    if e > 3 {
      var p, q := Pow(e - 3), Down(n, e - 3);
      PowPositive(e - 3);
      DownIs(q * p, e - 3);
      DivModUnique(q * p, p, q, 0);
    }
  }

  lemma NotNegativeZero(n: nat)
    ensures n > 0 ==> Rounded(n) > 0
  {
    hide Rounded;
    RoundedError(n);
  }

  /** A larger target has a larger word. */
  lemma CompactIsMonotone(m: nat, n: nat)
    requires m <= n
    ensures Compacted(m) <= Compacted(n)
  {
    hide Exponent, Leading;
    ExponentMonotone(m, n);
    LeadingFits(m);
    LeadingFits(n);
    if Exponent(m) == Exponent(n) {
      LeadingMonotone(m, n, Exponent(n));
    }
  }

  lemma LeadingMonotone(m: nat, n: nat, e: nat)
    requires m <= n
    ensures Leading(m, e) <= Leading(n, e)
  {
    if e <= 3 {
      TooMuch(n, m, Pow(3 - e));
    } else {
      DownMonotone(m, n, e - 3);
    }
  }

  lemma {:induction false} DownMonotone(m: nat, n: nat, k: nat)
    requires m <= n
    ensures Down(m, k) <= Down(n, k)
  {
    if k > 0 {
      DownMonotone(m / 256, n / 256, k - 1);
    }
  }

  // ---------------------------------------------------------------- the code, on 32 bits

  const W32: nat := 0x1_0000_0000

  /** The size has to fit one byte, and does for numbers below 2^2039. */
  predicate FitsByte(n: int) { Exponent(Abs(n)) <= 255 }

  lemma FitsByteIs(n: int)
    ensures FitsByte(n) <==> 2 * Abs(n) < Pow(255)
  {
    hide Pow, Exponent;
    ExponentIs(Abs(n));
    if Exponent(Abs(n)) <= 255 {
      PowMonotone(Exponent(Abs(n)), 255);
    } else {
      PowMonotone(255, Exponent(Abs(n)) - 1);
    }
  }

  method GetCompact(bn: int) returns (nCompact: nat)
    ensures nCompact == Compacted(bn) % W32
    ensures FitsByte(bn) ==> nCompact == Compacted(bn)
  {
    hide Pow, Exponent, Leading, NumBytes, Up, Down;
    var mag := Abs(bn);
    var nSize := NumBytes(mag);
    WordOf(mag);
    LeadingIs(mag, nSize);
    if nSize <= 3 {
      nCompact := Up(mag, 3 - nSize);
    } else {
      nCompact := Down(mag, nSize - 3);
    }
    if nCompact >= SIGN {
      nCompact := nCompact / 256;
      nSize := nSize + 1;
    }
    assert nCompact == Leading(mag, nSize) && nSize == Exponent(mag);
    LeadingFits(mag);
    WordWraps(nSize, nCompact, bn < 0);
    nCompact := nCompact + nSize * MANTISSA % W32 + (if bn < 0 then SIGN else 0);
  }

  lemma LeadingIs(n: nat, e: nat)
    ensures Leading(n, e) == if e <= 3 then Up(n, 3 - e) else Down(n, e - 3)
  {
  }

  lemma WordWraps(e: nat, w: nat, neg: bool)
    requires w < SIGN
    ensures w + e * MANTISSA % W32 + (if neg then SIGN else 0) == (e * MANTISSA + w + (if neg then SIGN else 0)) % W32
    ensures e <= 255 ==> w + e * MANTISSA % W32 == e * MANTISSA + w
  {
    var q, r, x := e / 256, e % 256, w + if neg then SIGN else 0;
    DivModUnique(e * MANTISSA, W32, q, r * MANTISSA);
    DivModUnique(e * MANTISSA + x, W32, q, r * MANTISSA + x);
  }

  /** The three leading bytes, and what becomes of them when their top bit is set. */
  lemma WordOf(n: nat)
    ensures var size := NumBytes(n); var w := Leading(n, size);
      && w < MANTISSA
      && Exponent(n) == (if w >= SIGN then size + 1 else size)
      && (w >= SIGN ==> w / 256 == Leading(n, size + 1))
  {
    hide Pow;
    var size := NumBytes(n);
    NumBytesIs(n);
    SmallPowers();
    if size <= 3 {
      SmallWord(n, size);
    } else {
      var p := Pow(size - 3);
      DownIs(n, size - 3);
      PowSum(3, size - 3);
      PowPositive(size - 3);
      var q := Down(n, size - 3);
      if q >= MANTISSA {
        TooMuch(q, MANTISSA, p);
      }
      if q >= SIGN {
        TooMuch(q, SIGN, p);
      } else {
        TooMuch(SIGN, q + 1, p);
      }
      DownOnce(n, size - 3);
    }
  }

  lemma SmallWord(n: nat, size: nat)
    requires size == NumBytes(n) <= 3
    ensures var w := Leading(n, size);
      && w < MANTISSA
      && (w >= SIGN <==> Exponent(n) == size + 1)
      && (w >= SIGN ==> w / 256 == Leading(n, size + 1))
  {
    NumBytesIs(n);
    SmallPowers();
    if size == 0 {
    } else if size == 1 {
    } else if size == 2 {
    } else {
      assert Down(n, 1) == Down(n / 256, 0);
    }
  }

  lemma {:induction false} DownOnce(n: nat, k: nat)
    ensures Down(n, k) / 256 == Down(n, k + 1)
  {
    if k > 0 {
      DownOnce(n / 256, k - 1);
    }
  }

  method SetCompact(nCompact: nat) returns (bn: int)
    requires nCompact < W32
    ensures bn == Expanded(nCompact)
  {
    var nSize := nCompact / MANTISSA;
    var fNegative := nCompact % MANTISSA >= SIGN;
    var nWord := nCompact % SIGN;
    if nSize <= 3 {
      nWord := Down(nWord, 3 - nSize);
      bn := nWord;
    } else {
      bn := nWord;
      bn := Up(nWord, nSize - 3);
    }
    if fNegative {
      bn := 0 - bn;
    }
  }

  /** The word of 32 bits stands for the rounded number exactly if the size
      fits its byte. */
  lemma WordStandsForNumber(n: nat)
    ensures Expanded(Compacted(n) % W32) <= n && (n - Expanded(Compacted(n) % W32)) * 0x8000 < n <==>
      n > 0 && FitsByte(n)
  {
    hide Exponent, Leading, Rounded, Pow, Magnitude;
    LeadingFits(n);
    if FitsByte(n) {
      assert Compacted(n) % W32 == Compacted(n);
      ExpandCompacted(n);
      RoundedError(n);
      if n == 0 {
        RoundedIs(0);
      }
    } else {
      var e, w := Exponent(n) % 256, Leading(n, Exponent(n));
      WrappedParts(Exponent(n), w);
      MagnitudeBelow(e, w);
      ExponentIs(n);
      FarBelow(n, Exponent(n), e);
    }
  }

  lemma WrappedParts(e: nat, w: nat)
    requires w < SIGN
    ensures var c := (e * MANTISSA + w) % W32;
      c / MANTISSA == e % 256 && c % SIGN == w && c % MANTISSA == w
  {
    assert (e * MANTISSA + w) % W32 == e % 256 * MANTISSA + w;
  }

  lemma MagnitudeBelow(e: nat, w: nat)
    requires w < SIGN
    ensures 2 * Magnitude(e, w) <= Pow(3) * Pow(e)
  {
    SmallPowers();
    hide Pow;
    PowPositive(e);
    if e <= 3 {
      DownIs(w, 3 - e);
      PowPositive(3 - e);
      TooMuch(Pow(3 - e), 1, Down(w, 3 - e));
      TooMuch(Pow(e), 1, Pow(3));
    } else {
      TooMuch(SIGN, w, Pow(e - 3));
      PowMonotone(e - 3, e);
      TooMuch(Pow(e), Pow(e - 3), SIGN);
    }
  }

  lemma FarBelow(n: nat, big: nat, e: nat)
    requires big >= 256 + e && Pow(big - 1) <= 2 * n
    ensures Pow(3) * Pow(e) * 4 <= 2 * n
  {
    hide Pow;
    PowSum(3, e);
    PowSum(1, 3 + e);
    SmallPowers();
    PowMonotone(4 + e, big - 1);
  }
}
