/** Compact amounts (src/core.cpp): trailing zeros of the decimal number are
    counted instead of stored. */
module Amounts {
  import opened Arith
  import opened VarInt

  const MAX_MONEY: nat := 50000000000 * 1000000

  /** m with e zeros behind it. */
  function Grown(m: nat, e: nat): (r: nat)
    ensures m > 0 ==> r >= m
  {
    if e == 0 then m else 10 * Grown(m, e - 1)
  }

  // ---------------------------------------------------------------- over the natural numbers

  /** Take off trailing zeros, at most nine in all. */
  function Strip(n: nat, e: nat): (nat, nat)
    requires n > 0
    decreases 9 - e
  {
    if n % 10 == 0 && e < 9 then Strip(n / 10, e + 1) else (n, e)
  }

  function Packed(m: nat, e: nat): nat
    requires m > 0
  {
    if e < 9 then 1 + (m / 10 * 9 + m % 10 - 1) * 10 + e else 1 + (m - 1) * 10 + 9
  }

  function Compressed(n: nat): nat {
    if n == 0 then 0
    else
      StripSteps(n, 0);
      var (m, e) := Strip(n, 0); Packed(m, e)
  }

  /** The number and the count of zeros. */
  function Unpacked(x: nat): (nat, nat)
    requires x > 0
  {
    var e, y := (x - 1) % 10, (x - 1) / 10;
    if e < 9 then (y / 9 * 10 + y % 9 + 1, e) else (y + 1, e)
  }

  function Decompressed(x: nat): nat {
    if x == 0 then 0 else var (m, e) := Unpacked(x); Grown(m, e)
  }

  /** A number with last digit d behind q and e zeros behind it, or nine zeros
      and any digits, compresses to this. */
  lemma CompressedForm(q: nat, d: nat, e: nat)
    requires 1 <= d <= 9 && e < 9
    ensures Compressed(Grown(10 * q + d, e)) == 1 + 10 * (9 * q + d - 1) + e
  {
    hide Strip, Grown;
    GrownPositive(10 * q + d, e);
    DivModUnique(10 * q + d, 10, q, d);
    StripGrown(10 * q + d, e, 0);
  }

  lemma NineZerosForm(m: nat)
    requires m > 0
    ensures Compressed(Grown(m, 9)) == 10 * m
  {
    hide Strip, Grown;
    GrownPositive(m, 9);
    StripGrown(m, 9, 0);
  }

  lemma GrownPositive(m: nat, e: nat)
    requires m > 0
    ensures Grown(m, e) > 0
  {
  }

  lemma {:induction false} StripGrown(m: nat, e: nat, f: nat)
    requires m > 0 && e + f <= 9 && (e + f < 9 ==> m % 10 != 0)
    ensures Grown(m, e) > 0 && Strip(Grown(m, e), f) == (m, e + f)
    decreases e
  {
    if e > 0 {
      StripGrown(m, e - 1, f + 1);
      DivModUnique(Grown(m, e), 10, Grown(m, e - 1), 0);
    }
  }

  /** Nine zeros are off, or the last digit is not 0. */
  predicate Stripped(m: nat, e: nat) { m > 0 && e <= 9 && (e < 9 ==> m % 10 != 0) }

  lemma {:induction false} StripSteps(n: nat, e: nat)
    requires n > 0 && e <= 9
    ensures var (m, f) := Strip(n, e);
      Stripped(m, f) && e <= f && n == Grown(m, f - e)
    decreases 9 - e
  {
    if n % 10 == 0 && e < 9 {
      StripSteps(n / 10, e + 1);
    }
  }

  lemma {:induction false} StripUndoes(m: nat, e: nat, f: nat)
    requires Stripped(m, f) && e <= f
    ensures Strip(Grown(m, f - e), e) == (m, f)
    decreases f - e
  {
    if e < f {
      StripUndoes(m, e + 1, f);
    }
  }

  lemma UnpackedPacked(m: nat, e: nat)
    requires Stripped(m, e)
    ensures Packed(m, e) > 0 && Unpacked(Packed(m, e)) == (m, e)
  {
    if e < 9 {
      var y := m / 10 * 9 + m % 10 - 1;
      assert y / 9 == m / 10 && y % 9 == m % 10 - 1;
    }
  }

  lemma PackedUnpacked(x: nat)
    requires x > 0
    ensures var (m, e) := Unpacked(x); Stripped(m, e) && Packed(m, e) == x
  {
    var e, y := (x - 1) % 10, (x - 1) / 10;
    if e < 9 {
      var m := y / 9 * 10 + y % 9 + 1;
      assert m / 10 == y / 9 && m % 10 == y % 9 + 1;
    }
  }

  /** Compression is undone by decompression, */
  lemma DecompressCompress(n: nat)
    ensures Decompressed(Compressed(n)) == n
  {
    if n > 0 {
      StripSteps(n, 0);
      var (m, e) := Strip(n, 0);
      UnpackedPacked(m, e);
    }
  }

  /** and the other way round, so that it is one to one. */
  lemma CompressDecompress(x: nat)
    ensures Compressed(Decompressed(x)) == x
  {
    if x > 0 {
      PackedUnpacked(x);
      var (m, e) := Unpacked(x);
      StripUndoes(m, 0, e);
    }
  }

  /** A compressed amount is at most nine times the amount. */
  lemma CompressedBound(n: nat)
    ensures Compressed(n) <= 9 * n
  {
    if n > 0 {
      StripSteps(n, 0);
      var (m, e) := Strip(n, 0);
      if e > 0 {
        assert n == 10 * Grown(m, e - 1) >= 10 * m;
      }
    }
  }

  // ---------------------------------------------------------------- the code, on 64 bits

  method CompressAmount(amount: nat) returns (r: nat)
    requires amount < W64
    ensures r == Wrap(Compressed(amount), W64)
  {
    if amount == 0 {
      return 0;
    }
    StripSteps(amount, 0);
    var n, e: nat := amount, 0;
    while n % 10 == 0 && e < 9
      invariant n > 0 && e <= 9 && n <= amount && Strip(n, e) == Strip(amount, 0)
      decreases 9 - e
    {
      n := n / 10;
      e := e + 1;
    }
    if e < 9 {
      var d := n % 10;
      assert 1 <= d <= 9;
      n := n / 10;
      r := Wrap(1 + (n * 9 + d - 1) * 10 + e, W64);
    } else {
      r := Wrap(1 + (n - 1) * 10 + 9, W64);
    }
  }

  method DecompressAmount(x: nat) returns (r: nat)
    requires x < W64
    ensures r == Wrap(Decompressed(x), W64)
  {
    if x == 0 {
      return 0;
    }
    var y := x - 1;
    var e := y % 10;
    y := y / 10;
    var n: nat := 0;
    if e < 9 {
      var d := y % 9 + 1;
      y := y / 9;
      n := y * 10 + d;
    } else {
      n := y + 1;
    }
    ghost var m, k := n, 0;
    assert Unpacked(x) == (m, e);
    while e > 0
      invariant 0 <= e && 0 <= k && k + e == Unpacked(x).1 && m == Unpacked(x).0
      invariant n == Wrap(Grown(m, k), W64)
      decreases e
    {
      TimesTen(m, k);
      n := Wrap(n * 10, W64);
      e := e - 1;
      k := k + 1;
    }
    r := n;
  }

  lemma TimesTen(m: nat, k: nat)
    ensures Wrap(Wrap(Grown(m, k), W64) * 10, W64) == Wrap(Grown(m, k + 1), W64)
  {
    WrapTimes(Grown(m, k), W64);
  }

  lemma WrapTimes(a: nat, d: nat)
    requires d > 0
    ensures Wrap(Wrap(a, d) * 10, d) == Wrap(a * 10, d)
  {
    var q, b := a / d, a % d;
    var q', r := (b * 10) / d, (b * 10) % d;
    assert a * 10 == (q * d + b) * 10 == 10 * (q * d) + q' * d + r;
    assert 10 * (q * d) + q' * d == (10 * q + q') * d;
    DivModUnique(a * 10, d, 10 * q + q', r);
  }

  /** Whenever the compressed amount fits 64 bits, it decompresses to the amount. */
  lemma AmountRoundTrip(n: nat)
    requires n < W64 && Compressed(n) < W64
    ensures Wrap(Decompressed(Wrap(Compressed(n), W64)), W64) == n
  {
    hide Wrap, Compressed, Decompressed;
    WrapSmall(Compressed(n), W64);
    DecompressCompress(n);
    WrapSmall(n, W64);
  }

  /** So it does for every amount of money there can be. */
  lemma MoneyRoundTrip(n: nat)
    requires n <= MAX_MONEY
    ensures Compressed(n) < W64 && Wrap(Decompressed(Wrap(Compressed(n), W64)), W64) == n
  {
    hide Wrap, Compressed, Decompressed;
    CompressedBound(n);
    AmountRoundTrip(n);
  }

  // ---------------------------------------------------------------- exactly which amounts survive 64 bits

  /** Amounts with a zero at the end, and those below about a ninth of 2^64. */
  predicate Compressible(n: nat) { n % 10 == 0 || 9 * n + n % 10 - 9 < W64 }

  lemma CompressedOdd(n: nat)
    requires n % 10 != 0
    ensures Compressed(n) == 9 * n + n % 10 - 9
  {
    assert Strip(n, 0) == (n, 0);
  }

  lemma CompressedRound(n: nat)
    requires n % 10 == 0
    ensures Compressed(n) <= 9 * (n / 10) + 8
  {
    if n > 0 {
      StripSteps(n, 0);
      var (m, e) := Strip(n, 0);
      assert n == Grown(m, e);
      assert e > 0;
      assert n == 10 * Grown(m, e - 1);
      if e == 9 {
        assert Grown(m, 8) == 10 * Grown(m, 7) >= 10 * m;
      }
    }
  }

  /** They are the ones whose compressed form fits 64 bits. */
  lemma CompressibleIs(n: nat)
    requires n < W64
    ensures Compressible(n) <==> Compressed(n) < W64
  {
    hide Compressed;
    if n % 10 == 0 {
      CompressedRound(n);
    } else {
      CompressedOdd(n);
    }
  }

  /** What n, too large, compresses to on 64 bits has e for its count of zeros,
      and the digits make the difference c. */
  predicate Clash(n: nat, e: nat, c: int) {
    var d, v := n % 10, 9 * n + n % 10 - 9;
    d != 0 && v >= W64 && v % W64 > 0 && (v % W64 - 1) % 10 == e && d - 1 - e - (v % W64 - 1) / 10 % 9 == c
  }

  /** A count of zeros is even, and if it is 0 nothing wraps. */
  lemma ZerosEven(n: nat, x: nat)
    requires n < W64 && n % 10 != 0 && 9 * n + n % 10 - 9 >= W64
    requires x == (9 * n + n % 10 - 9) % W64 && x > 0
    ensures var e := (x - 1) % 10; e == 0 || e == 2 || e == 4 || e == 6 || e == 8
  {
    var v := 9 * n + n % 10 - 9;
    var k := v / W64;
    assert v == k * W64 + x;
    ZerosAre(n / 10, n % 10, k, x);
  }

  lemma ZerosAre(q: nat, d: nat, k: nat, x: nat)
    requires x > 0 && 90 * q + 10 * d - 9 == k * W64 + x
    ensures (x - 1) % 10 == 4 * k % 10
  {
    var b := 4 * k / 10;
    var a := 9 * q + d - 1 - 1844674407370955161 * k - k;
    assert x - 1 == 10 * (a + b) + 4 * k % 10;
    DivModUnique(x - 1, 10, a + b, 4 * k % 10);
  }

  /** Then the amount solves a congruence. */
  lemma Congruence(n: nat, x: nat, e: nat, p: nat) returns (c: int, t: int)
    requires n < W64 && n % 10 != 0 && 9 * n + n % 10 - 9 >= W64
    requires x == (9 * n + n % 10 - 9) % W64 && x > 0 && e == (x - 1) % 10 && 0 < e < 9
    requires Decompressed(x) == p * Unpacked(x).0 && Wrap(Decompressed(x), W64) == n
    ensures Clash(n, e, c) && -8 - e <= c <= 8 - e
    ensures 9 * (p * n) - 9 * n + p * c == t * W64
  {
    hide Clash, Wrap, Decompressed, Unpacked;
    var k;
    c, k := NineTimes(n, x, e);
    var m := Unpacked(x).0;
    var u := WrapQuotient(p * m, n);
    t := 9 * u + p * k;
    Combined(n, m, p, c, k, u);
  }

  lemma NineTimes(n: nat, x: nat, e: nat) returns (c: int, k: int)
    requires n % 10 != 0 && 9 * n + n % 10 - 9 >= W64
    requires x == (9 * n + n % 10 - 9) % W64 && x > 0 && e == (x - 1) % 10 && e < 9
    ensures Clash(n, e, c) && -8 - e <= c <= 8 - e
    ensures 9 * Unpacked(x).0 == 9 * n + c - k * W64
  {
    hide Clash, Unpacked;
    k := (9 * n + n % 10 - 9) / W64;
    c := n % 10 - 1 - e - (x - 1) / 10 % 9;
    ClashIs(n, x, e, c);
    UnpackedNine(x);
  }

  lemma UnpackedNine(x: nat)
    requires x > 0 && (x - 1) % 10 < 9
    ensures var (m, e) := Unpacked(x);
      e == (x - 1) % 10 && 9 * m == x + 8 - e - (x - 1) / 10 % 9
  {
  }

  lemma Combined(n: nat, m: nat, p: nat, c: int, k: int, u: int)
    requires 9 * m == 9 * n + c - k * W64 && p * m == u * W64 + n
    ensures 9 * (p * n) - 9 * n + p * c == (9 * u + p * k) * W64
  {
    assert p * (9 * m) == 9 * (p * m);
    assert p * (9 * n + c - k * W64) == 9 * (p * n) + p * c - p * k * W64;
    assert (9 * u + p * k) * W64 == 9 * u * W64 + p * k * W64;
  }

  lemma ClashIs(n: nat, x: nat, e: nat, c: int)
    requires n % 10 != 0 && 9 * n + n % 10 - 9 >= W64 && x == (9 * n + n % 10 - 9) % W64 && x > 0
    requires e == (x - 1) % 10 && c == n % 10 - 1 - e - (x - 1) / 10 % 9
    ensures Clash(n, e, c)
  {
  }

  lemma WrapQuotient(a: nat, n: nat) returns (u: int)
    requires Wrap(a, W64) == n
    ensures a == u * W64 + n
  {
    u := a / W64;
  }

  /** A coefficient with an inverse leaves one solution. */
  lemma Solution(n: nat, a: nat, p: nat, inverse: nat, g: nat, q: nat, s: nat, c: int, t: int)
    requires n < W64 && inverse * a == 1 + q * W64 && g + inverse * p == s * W64
    requires a * n + p * c == t * W64
    ensures n == (g * c) % W64
  {
    var u := inverse * t - q * n - s * c;
    assert inverse * (a * n + p * c) == inverse * (t * W64) == inverse * t * W64;
    assert inverse * (a * n) == (1 + q * W64) * n == n + q * n * W64;
    assert inverse * (p * c) == (s * W64 - g) * c == s * c * W64 - g * c;
    assert u * W64 == inverse * t * W64 - q * n * W64 - s * c * W64;
    assert g * c == -1 * u * W64 + n;
    DivModUnique(g * c, W64, -1 * u, n);
  }

  /** The one solution 10 * m + d for a difference: j times 2^64 below g times the
      difference, and compressing to k times 2^64 and 90 * q + 10 * r + z + 1. */
  datatype Row = Row(j: int, m: nat, d: nat, k: int, q: nat, r: nat, z: nat)

  /** The row is right, and the solution is not too large or has another count of
      zeros or another difference. */
  predicate RowRefutes(g: nat, e: nat, c: int, w: Row) {
    && g * c == w.j * W64 + 10 * w.m + w.d && 10 * w.m + w.d < W64 && w.d < 10
    && 90 * w.m + 10 * w.d - 9 == w.k * W64 + 90 * w.q + 10 * w.r + w.z + 1
    && 90 * w.q + 10 * w.r + w.z + 1 < W64 && w.r < 9 && w.z < 10
    && (w.d == 0 || w.k <= 0 || w.z != e || w.d - 1 - e - w.r != c)
  }

  /** Row i is about the difference c + i. */
  predicate RowsRefute(g: nat, e: nat, c: int, rows: seq<Row>) {
    forall i :: 0 <= i < |rows| ==> RowRefutes(g, e, c + i, rows[i])
  }

  lemma NoClashInRow(g: nat, e: nat, c: int, w: Row)
    requires RowRefutes(g, e, c, w)
    ensures !Clash(g * c % W64, e, c)
  {
    var n, y := 10 * w.m + w.d, 9 * w.q + w.r;
    DivModUnique(g * c, W64, w.j, n);
    DivModUnique(n, 10, w.m, w.d);
    DivModUnique(9 * n + w.d - 9, W64, w.k, 10 * y + w.z + 1);
    DivModUnique(10 * y + w.z, 10, y, w.z);
    DivModUnique(y, 9, w.q, w.r);
  }

  lemma NoClashInRows(g: nat, e: nat, first: int, rows: seq<Row>, c: int)
    requires RowsRefute(g, e, first, rows) && first <= c < first + |rows|
    ensures !Clash(g * c % W64, e, c)
  {
    hide Clash, RowRefutes;
    NoClashInRow(g, e, c, rows[c - first]);
  }

  const Rows2: seq<Row> := [
    Row(-8, 1817759965961502392, 8, 8, 178049381631764471, 3, 2),
    Row(-7, 1267049087891161121, 2, 6, 37266149643857680, 0, 4),
    Row(-6, 716338209820819849, 6, 3, 101446740697168129, 0, 2),
    Row(-5, 165627331750478578, 0, 0, 165627331750478577, 8, 0),
    Row(-5, 1459590861051092468, 0, 7, 24844099762571786, 5, 8),
    Row(-4, 908879982980751196, 4, 4, 89024690815882235, 5, 6),
    Row(-3, 358169104910409924, 8, 1, 153205281869192684, 5, 4),
    Row(-3, 1652132634211023814, 8, 8, 12422049881285893, 3, 2),
    Row(-2, 1101421756140682543, 2, 5, 76602640934596342, 2, 0),
    Row(-1, 550710878070341271, 6, 2, 140783231987906791, 1, 8),
    Row(0, 0, 0, -1, 204963823041217240, 0, 6),
    Row(0, 1293963529300613890, 0, 6, 64180591053310448, 7, 4),
    Row(1, 743252651230272618, 4, 3, 128361182106620897, 7, 2),
    Row(2, 192541773159931346, 8, 0, 192541773159931346, 7, 0),
    Row(2, 1486505302460545236, 8, 7, 51758541172024555, 4, 8),
    Row(3, 935794424390203965, 2, 4, 115939132225335004, 3, 6),
    Row(4, 385083546319862693, 6, 1, 180119723278645453, 3, 4)
  ]

  lemma NoClash2(n: nat, c: int, t: int)
    requires n < W64 && -10 <= c <= 6 && 891 * n + 100 * c == t * W64
    ensures !Clash(n, 2, c)
  {
    hide Clash;
    Solution(n, 891, 100, 13705661702352102323, 12939635293006138900, 662, 75, c, t);
    assert RowsRefute(12939635293006138900, 2, -10, Rows2);
    NoClashInRows(12939635293006138900, 2, -10, Rows2, c);
  }

  const Rows4: seq<Row> := [
    Row(-8, 1794432750177833504, 0, 8, 154722165848095582, 4, 2),
    Row(-7, 1030005218539362324, 8, 5, 5186103333276123, 8, 0),
    Row(-6, 265577686900891145, 6, 1, 60613863859673905, 3, 4),
    Row(-6, 1345824562633375128, 0, 6, 116041624386071686, 7, 4),
    Row(-5, 581397030994903948, 8, 2, 171469384912469468, 3, 8),
    Row(-5, 1661643906727387931, 2, 8, 21933322397650009, 6, 2),
    Row(-4, 897216375088916752, 0, 4, 77361082924047791, 1, 6),
    Row(-3, 132788843450445572, 8, 0, 132788843450445572, 7, 0),
    Row(-3, 1213035719182929555, 2, 5, 188216603976843354, 2, 0),
    Row(-2, 448608187544458376, 0, 2, 38680541462023895, 4, 8),
    Row(-2, 1528855063276942358, 4, 7, 94108301988421677, 0, 8),
    Row(-1, 764427531638471179, 2, 3, 149536062514819458, 5, 2),
    Row(0, 0, 0, -1, 204963823041217240, 0, 6),
    Row(0, 1080246875732483982, 4, 5, 55427760526397781, 4, 0),
    Row(1, 315819344094012803, 2, 1, 110855521052795562, 8, 4),
    Row(1, 1396066219826496785, 6, 6, 166283281579193344, 4, 4),
    Row(2, 631638688188025606, 4, 3, 16747219064373885, 7, 2)
  ]

  lemma NoClash4(n: nat, c: int, t: int)
    requires n < W64 && -12 <= c <= 4 && 89991 * n + 10000 * c == t * W64
    ensures !Clash(n, 4, c)
  {
    hide Clash;
    Solution(n, 89991, 10000, 15842828238033401399, 10802468757324839824, 77288, 8589, c, t);
    assert RowsRefute(10802468757324839824, 4, -12, Rows4);
    NoClashInRows(10802468757324839824, 4, -12, Rows4, c);
  }

  const Rows6: seq<Row> := [
    Row(-11, 465092279471850201, 6, 2, 55164633389415721, 1, 8),
    Row(-10, 36584029358656224, 0, 0, 36584029358656223, 8, 0),
    Row(-10, 1452750186616417408, 0, 7, 18003425327896726, 5, 8),
    Row(-9, 1024241936503223430, 4, 4, 204386644338354469, 5, 6),
    Row(-8, 595733686390029452, 8, 2, 185806040307594972, 3, 8),
    Row(-7, 167225436276835475, 2, 0, 167225436276835475, 1, 0),
    Row(-7, 1583391593534596659, 2, 7, 148644832246075977, 7, 8),
    Row(-6, 1154883343421402681, 6, 5, 130064228215316480, 6, 0),
    Row(-5, 726375093308208704, 0, 3, 111483624184556983, 3, 2),
    Row(-4, 297866843195014726, 4, 1, 92903020153797486, 1, 4),
    Row(-4, 1714033000452775910, 4, 8, 74322416123037988, 8, 2),
    Row(-3, 1285524750339581932, 8, 6, 55741812092278491, 6, 4),
    Row(-2, 857016500226387955, 2, 4, 37161208061518994, 3, 6),
    Row(-1, 428508250113193977, 6, 2, 18580604030759497, 1, 8),
    Row(0, 0, 0, -1, 204963823041217240, 0, 6),
    Row(0, 1416166157257761184, 0, 6, 186383219010457742, 7, 4),
    Row(1, 987657907144567206, 4, 4, 167802614979698245, 5, 6)
  ]

  lemma NoClash6(n: nat, c: int, t: int)
    requires n < W64 && -14 <= c <= 2 && 8999991 * n + 1000000 * c == t * W64
    ensures !Clash(n, 6, c)
  {
    hide Clash;
    Solution(n, 8999991, 1000000, 12483635422780629383, 14161661572577611840, 6090647, 676740, c, t);
    assert RowsRefute(14161661572577611840, 6, -14, Rows6);
    NoClashInRows(14161661572577611840, 6, -14, Rows6, c);
  }

  const Rows8: seq<Row> := [
    Row(-9, 258324367619066675, 2, 1, 53360544577849434, 8, 4),
    Row(-9, 1279808448789037286, 4, 6, 50025510541733845, 2, 4),
    Row(-8, 456618122588052736, 0, 2, 46690476505618255, 4, 8),
    Row(-8, 1478102203758023347, 2, 7, 43355442469502665, 7, 8),
    Row(-7, 654911877557038796, 8, 3, 40020408433387076, 2, 2),
    Row(-7, 1676395958727009408, 0, 8, 36685374397271486, 4, 2),
    Row(-6, 853205632526024857, 6, 4, 33350340361155896, 7, 6),
    Row(-5, 30015306325040307, 2, 0, 30015306325040307, 1, 0),
    Row(-5, 1051499387495010918, 4, 5, 26680272288924717, 4, 0),
    Row(-4, 228309061294026368, 0, 1, 23345238252809127, 6, 4),
    Row(-4, 1249793142463996979, 2, 6, 20010204216693538, 0, 4),
    Row(-3, 426602816263012428, 8, 2, 16675170180577948, 3, 8),
    Row(-3, 1448086897432983040, 0, 7, 13340136144462358, 5, 8),
    Row(-2, 624896571231998489, 6, 3, 10005102108346769, 0, 2),
    Row(-2, 1646380652401969100, 8, 8, 6670068072231179, 3, 2),
    Row(-1, 823190326200984550, 4, 4, 3335034036115589, 5, 6),
    Row(0, 0, 0, -1, 204963823041217240, 0, 6)
  ]

  lemma NoClash8(n: nat, c: int, t: int)
    requires n < W64 && -16 <= c <= 0 && 899999991 * n + 100000000 * c == t * W64
    ensures !Clash(n, 8, c)
  {
    hide Clash;
    Solution(n, 899999991, 100000000, 16430456183658535111, 10214840811699706112, 801627125, 89069682, c, t);
    assert RowsRefute(10214840811699706112, 8, -16, Rows8);
    NoClashInRows(10214840811699706112, 8, -16, Rows8, c);
  }

  /** An amount whose compressed form does not fit does not come back. */
  lemma TooLargeIsLost(n: nat)
    requires n < W64 && !Compressible(n)
    ensures Wrap(Decompressed(Wrap(Compressed(n), W64)), W64) != n
  {
    hide Wrap, Compressed, Decompressed, Clash;
    CompressedOdd(n);
    var x := Wrap(Compressed(n), W64);
    WrapOf(Compressed(n), x);
    if Wrap(Decompressed(x), W64) == n {
      if x == 0 {
        NothingDecompressed();
      } else {
        ZerosEven(n, x);
        var e := (x - 1) % 10;
        if e == 0 {
          WithoutZeros(n, x);
        } else {
          OneOfFour(n, x, e);
        }
      }
    }
  }

  lemma WrapOf(v: nat, x: nat)
    requires x == Wrap(v, W64)
    ensures x == v % W64
  {
  }

  lemma NothingDecompressed()
    ensures Wrap(Decompressed(0), W64) == 0
  {
  }

  lemma WithoutZeros(n: nat, x: nat)
    requires 0 < x < W64 && (x - 1) % 10 == 0 && Wrap(Decompressed(x), W64) == n
    ensures Compressed(n) == x
  {
    CompressDecompress(x);
    var m := Unpacked(x).0;
    assert Decompressed(x) == Grown(m, 0) == m < W64;
    WrapSmall(m, W64);
  }

  lemma OneOfFour(n: nat, x: nat, e: nat)
    requires n < W64 && n % 10 != 0 && 9 * n + n % 10 - 9 >= W64
    requires x == (9 * n + n % 10 - 9) % W64 && x > 0 && e == (x - 1) % 10
    requires e == 2 || e == 4 || e == 6 || e == 8
    ensures Wrap(Decompressed(x), W64) != n
  {
    hide Wrap, Decompressed, Clash;
    DecompressedIs(x);
    GrownBy(Unpacked(x).0);
    if Wrap(Decompressed(x), W64) == n {
      if e == 2 {
        var c, t := Congruence(n, x, e, 100);
        NoClash2(n, c, t);
      } else if e == 4 {
        var c, t := Congruence(n, x, e, 1_0000);
        NoClash4(n, c, t);
      } else if e == 6 {
        var c, t := Congruence(n, x, e, 100_0000);
        NoClash6(n, c, t);
      } else {
        var c, t := Congruence(n, x, e, 1_0000_0000);
        NoClash8(n, c, t);
      }
    }
  }

  lemma DecompressedIs(x: nat)
    requires x > 0
    ensures Decompressed(x) == Grown(Unpacked(x).0, (x - 1) % 10)
  {
  }

  lemma GrownBy(m: nat)
    ensures Grown(m, 2) == 100 * m && Grown(m, 4) == 1_0000 * m
    ensures Grown(m, 6) == 100_0000 * m && Grown(m, 8) == 1_0000_0000 * m
  {
    GrownTwice(m, 0);
    GrownTwice(m, 2);
    GrownTwice(m, 4);
    GrownTwice(m, 6);
  }

  lemma GrownTwice(m: nat, e: nat)
    ensures Grown(m, e + 2) == 100 * Grown(m, e)
  {
    assert Grown(m, e + 2) == 10 * Grown(m, e + 1);
  }

  /** Of the numbers of 64 bits exactly the compressible ones come back. */
  lemma AmountRoundTripExactly(n: nat)
    requires n < W64
    ensures Wrap(Decompressed(Wrap(Compressed(n), W64)), W64) == n <==> Compressible(n)
  {
    hide Wrap, Compressed, Decompressed;
    CompressibleIs(n);
    if Compressible(n) {
      AmountRoundTrip(n);
    } else {
      TooLargeIsLost(n);
    }
  }

  /** The largest one, for example, does not. */
  lemma LargestDoesNotRoundTrip()
    ensures Wrap(Decompressed(Wrap(Compressed(W64 - 1), W64)), W64) == 2049638230412172324 < W64 - 1
  {
    hide Wrap;
    assert Compressed(W64 - 1) == 166020696663385964531;
    WrapIs(166020696663385964531, 8, 18446744073709551603);
    var x := 18446744073709551603;
    assert Unpacked(x) == (2049638230412172401, 2);
    GrownTwice(2049638230412172401, 0);
    WrapIs(204963823041217240100, 11, 2049638230412172324);
  }

  lemma WrapIs(x: nat, q: nat, r: nat)
    requires r < W64 && x == q * W64 + r
    ensures Wrap(x, W64) == r
  {
  }
}
