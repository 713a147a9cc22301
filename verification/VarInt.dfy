/** Variable-length integers (src/serialize.h): base 128, the high bit saying
    that another digit follows, and one taken off all digits but the last. */
module VarInt {
  import Radix
  import opened Arith

  type Byte = b: nat | b < 256

  datatype Option<T> = None | Some(value: T)

  const W32: nat := 0x1_0000_0000
  const W64: nat := 0x1_0000_0000_0000_0000

  // ---------------------------------------------------------------- writing

  /** The digits, the last marked as going on if `more`.  `n & 0x7F` of a
      negative number is its remainder. */
  function Digits(n: int, more: bool): seq<Byte> {
    if n <= 0x7F then [n % 128 + (if more then 128 else 0)]
    else Digits(n / 128 - 1, true) + [n % 128 + (if more then 128 else 0)]
  }

  function Encoded(n: int): seq<Byte> { Digits(n, false) }

  function Reversed(s: seq<Byte>): seq<Byte> {
    if s == [] then [] else Reversed(s[1..]) + [s[0]]
  }

  lemma {:induction false} ReversedSnoc(s: seq<Byte>, b: Byte)
    ensures Reversed(s + [b]) == [b] + Reversed(s)
  {
    if s != [] {
      assert (s + [b])[1..] == s[1..] + [b];
      ReversedSnoc(s[1..], b);
    }
  }

  /** The least number of k digits: shorter numbers leave out none of them. */
  function First(k: nat): nat { if k <= 1 then 0 else 128 * (1 + First(k - 1)) }

  /** All digits but the last are marked, and k digits to base 128, highest first,
      count on from the least number of k digits. */
  lemma {:induction false} DigitsCount(n: nat, more: bool)
    ensures var s := Digits(n, more);
      && s != [] && (forall j :: 0 <= j < |s| ==> (s[j] >= 128 <==> more || j < |s| - 1))
      && n == First(|s|) + Radix.BigEndian(128, Plain(s))
  {
    hide Radix.BigEndian, First;
    if n <= 0x7F {
      OneDigitCounts(n, more);
    } else {
      DigitsCount(n / 128 - 1, true);
      OneMoreCounts(n, Digits(n / 128 - 1, true), more);
    }
  }

  lemma OneDigitCounts(n: nat, more: bool)
    requires n <= 0x7F
    ensures var s: seq<Byte> := [n % 128 + (if more then 128 else 0)];
      (s[0] >= 128 <==> more) && n == First(1) + Radix.BigEndian(128, Plain(s))
  {
    var s: seq<Byte> := [n % 128 + (if more then 128 else 0)];
    assert Plain(s) == [n];
    Radix.OneDigit(128, n);
  }

  lemma OneMoreCounts(n: nat, rest: seq<Byte>, more: bool)
    requires n > 0x7F && rest != [] && (forall j :: 0 <= j < |rest| ==> rest[j] >= 128)
    requires n / 128 - 1 == First(|rest|) + Radix.BigEndian(128, Plain(rest))
    ensures var s: seq<Byte> := rest + [n % 128 + (if more then 128 else 0)];
      && (forall j :: 0 <= j < |s| ==> (s[j] >= 128 <==> more || j < |s| - 1))
      && n == First(|s|) + Radix.BigEndian(128, Plain(s))
  {
    hide Radix.BigEndian;
    var s: seq<Byte> := rest + [n % 128 + (if more then 128 else 0)];
    assert Plain(s) == Plain(rest) + [n % 128];
    Radix.BigEndianSnoc(128, Plain(rest), n % 128);
  }

  /** The digits without their marks. */
  function Plain(s: seq<Byte>): (r: seq<nat>)
    ensures |r| == |s|
  {
    seq(|s|, j requires 0 <= j < |s| => s[j] % 128)
  }

  /** So every string whose last byte alone is unmarked is the encoding of one
      number. */
  lemma EncodedIs(n: nat)
    ensures var s := Encoded(n);
      && s != [] && (forall j :: 0 <= j < |s| ==> (s[j] >= 128 <==> j < |s| - 1))
      && n == First(|s|) + Radix.BigEndian(128, Plain(s))
  {
    hide Digits, Radix.BigEndian;
    DigitsCount(n, false);
  }

  lemma EncodedExamples()
    ensures Encoded(0) == [0] && Encoded(127) == [0x7F] && Encoded(128) == [0x80, 0] && Encoded(255) == [0x80, 0x7F]
    ensures Encoded(16383) == [0xFE, 0x7F] && Encoded(16384) == [0xFF, 0] && Encoded(16511) == [0xFF, 0x7F]
    ensures Encoded(65535) == [0x82, 0xFE, 0x7F]
    ensures Encoded(0x1_0000_0000) == [0x8E, 0xFE, 0xFE, 0xFF, 0]
  {
  }

  method WriteVarInt(os: seq<Byte>, n: int) returns (r: seq<Byte>)
    ensures r == os + Encoded(n)
  {
    var tmp: seq<Byte> := [];
    var m := n;
    while m > 0x7F
      invariant Encoded(n) == Digits(m, |tmp| > 0) + Reversed(tmp)
      decreases m
    {
      var b := m % 128 + (if |tmp| > 0 then 0x80 else 0x00);
      ReversedSnoc(tmp, b);
      tmp := tmp + [b];
      m := m / 128 - 1;
    }
    var last := m % 128 + (if |tmp| > 0 then 0x80 else 0x00);
    ReversedSnoc(tmp, last);
    tmp := tmp + [last];
    assert Encoded(n) == Reversed(tmp);
    r := os;
    var len := |tmp|;
    assert tmp[..len] == tmp;
    while len > 0
      invariant 0 <= len <= |tmp|
      invariant r + Reversed(tmp[..len]) == os + Reversed(tmp)
      decreases len
    {
      len := len - 1;
      assert tmp[..len + 1] == tmp[..len] + [tmp[len]];
      ReversedSnoc(tmp[..len], tmp[len]);
      r := r + [tmp[len]];
    }
  }

  method GetSizeOfVarInt(n: int) returns (nRet: nat)
    ensures nRet == |Encoded(n)|
  {
    nRet := 1;
    var m := n;
    while m > 0x7F
      invariant nRet + |Digits(m, nRet > 1)| == |Encoded(n)| + 1
      decreases m
    {
      m := m / 128 - 1;
      nRet := nRet + 1;
    }
  }

  function Power128(k: nat): nat { if k == 0 then 1 else 128 * Power128(k - 1) }

  /** The writer's buffer of (bits + 6) / 7 digits is never overrun. */
  lemma {:induction false} EncodedFits(n: int, more: bool, k: nat)
    requires k > 0 && n < Power128(k)
    ensures |Digits(n, more)| <= k
    decreases k
  {
    if n > 0x7F {
      assert k > 1;
      EncodedFits(n / 128 - 1, true, k - 1);
    }
  }

  lemma BufferFits(n: int)
    ensures n < W32 ==> |Encoded(n)| <= (32 + 6) / 7
    ensures n < W64 ==> |Encoded(n)| <= (64 + 6) / 7
  {
    assert Power128(5) == 0x8_0000_0000;
    assert Power128(10) == Power128(5) * 0x8_0000_0000 by {
      assert Power128(10) == 128 * (128 * (128 * (128 * (128 * Power128(5)))));
    }
    if n < W32 { EncodedFits(n, false, 5); }
    if n < W64 { EncodedFits(n, false, 10); }
  }

  // ---------------------------------------------------------------- reading

  /** What a type of m values keeps of x. */
  function Wrap(x: nat, m: nat): (r: nat)
    requires m > 0
    ensures r < m
  {
    x % m
  }

  lemma WrapSmall(x: nat, m: nat)
    requires x < m
    ensures Wrap(x, m) == x
  {
    DivModUnique(x, m, 0, x);
  }

  /** Read on with `acc` read so far, in a type of m values. */
  function ReadOn(m: nat, acc: nat, s: seq<Byte>): Option<(nat, seq<Byte>)>
    requires m > 0
    decreases |s|
  {
    if s == [] then None
    else
      var n := Wrap(acc * 128 + s[0] % 128, m);
      if s[0] >= 128 then ReadOn(m, Wrap(n + 1, m), s[1..]) else Some((n, s[1..]))
  }

  function Decoded(m: nat, s: seq<Byte>): Option<(nat, seq<Byte>)>
    requires m > 0
  {
    ReadOn(m, 0, s)
  }

  method ReadVarInt(m: nat, s: seq<Byte>) returns (r: Option<(nat, seq<Byte>)>)
    requires m > 0
    ensures r == Decoded(m, s)
  {
    var n: nat := 0;
    var rest := s;
    while rest != []
      invariant ReadOn(m, n, rest) == Decoded(m, s)
      decreases |rest|
    {
      var chData := rest[0];
      rest := rest[1..];
      n := Wrap(n * 128 + chData % 128, m);
      if chData >= 128 {
        n := Wrap(n + 1, m);
      } else {
        return Some((n, rest));
      }
    }
    r := None;
  }

  lemma {:induction false} DigitsRead(m: nat, n: nat, more: bool, rest: seq<Byte>)
    requires n < m
    ensures Decoded(m, Digits(n, more) + rest) == if more then ReadOn(m, Wrap(n + 1, m), rest) else Some((n, rest))
    decreases n
  {
    hide Wrap, ReadOn;
    var last: Byte := n % 128 + (if more then 128 else 0);
    OneRead(m, n / 128, n, more, rest);
    if n > 0x7F {
      DigitsRead(m, n / 128 - 1, true, [last] + rest);
      WrapSmall(n / 128, m);
      assert Digits(n, more) + rest == Digits(n / 128 - 1, true) + ([last] + rest);
    }
  }

  lemma OneRead(m: nat, acc: nat, n: nat, more: bool, rest: seq<Byte>)
    requires n < m && acc == n / 128
    ensures ReadOn(m, acc, [n % 128 + (if more then 128 else 0)] + rest) ==
      if more then ReadOn(m, Wrap(n + 1, m), rest) else Some((n, rest))
  {
    hide Wrap;
    var last: Byte := n % 128 + (if more then 128 else 0);
    WrapSmall(n, m);
    assert ([last] + rest)[0] == last && ([last] + rest)[1..] == rest;
  }

  /** A number that the type holds reads back, and nothing more is consumed. */
  lemma VarIntRoundTrip(m: nat, n: nat, rest: seq<Byte>)
    requires n < m
    ensures Decoded(m, Encoded(n) + rest) == Some((n, rest))
  {
    DigitsRead(m, n, false, rest);
  }

  /** A two's complement number of 32 bits. */
  function AsInt32(x: nat): int { var y := x % W32; if y < 0x8000_0000 then y else y - W32 }

  /** What is left of a signed number: a negative one is written as its lowest
      seven bits. */
  function Kept(n: int): int { if n >= 0 then n else n % 128 }

  lemma SignedReads(n: int, rest: seq<Byte>)
    requires -0x8000_0000 <= n < 0x8000_0000
    ensures var r := Decoded(W32, Encoded(n) + rest);
      r.Some? && r.value.1 == rest && AsInt32(r.value.0) == Kept(n)
  {
    if n >= 0 {
      VarIntRoundTrip(W32, n, rest);
    } else {
      assert Encoded(n) == [n % 128] == Encoded(n % 128);
      VarIntRoundTrip(W32, n % 128, rest);
    }
  }

  /** A signed number reads back exactly if it is not negative. */
  lemma SignedRoundTrip(n: int, rest: seq<Byte>)
    requires -0x8000_0000 <= n < 0x8000_0000
    ensures Decoded(W32, Encoded(n) + rest).Some?
    ensures AsInt32(Decoded(W32, Encoded(n) + rest).value.0) == n <==> n >= 0
  {
    SignedReads(n, rest);
  }

  // ---------------------------------------------------------------- one encoding for each number

  /** Every byte string that reads as a number without wrapping is its encoding
      and what is left. */
  lemma {:induction false} EncodingIsUnique(m: nat, acc: int, done: seq<Byte>, s: seq<Byte>)
    requires m > 0 && -1 <= acc && NoWrap(m, acc + 1, s) && ReadOn(m, acc + 1, s).Some?
    requires if acc == -1 then done == [] else done == Digits(acc, true)
    ensures var (n, rest) := ReadOn(m, acc + 1, s).value; done + s == Encoded(n) + rest
    decreases |s|
  {
    hide Wrap;
    var n := (acc + 1) * 128 + s[0] % 128;
    WrapSmall(n, m);
    if acc == -1 {
      assert Digits(n, s[0] >= 128) == [s[0]];
    } else {
      assert n / 128 - 1 == acc && n > 0x7F;
      assert Digits(n, s[0] >= 128) == done + [s[0]];
    }
    assert done + s == Digits(n, s[0] >= 128) + s[1..];
    if s[0] >= 128 {
      WrapSmall(n + 1, m);
      EncodingIsUnique(m, n, Digits(n, true), s[1..]);
    }
  }

  /** Reading never leaves the type's range. */
  ghost predicate NoWrap(m: nat, acc: nat, s: seq<Byte>)
    decreases |s|
  {
    s == [] ||
    var n := acc * 128 + s[0] % 128;
    if s[0] >= 128 then n + 1 < m && NoWrap(m, n + 1, s[1..]) else n < m
  }

  lemma UniqueEncoding(m: nat, s: seq<Byte>)
    requires m > 0 && NoWrap(m, 0, s) && Decoded(m, s).Some?
    ensures var (n, rest) := Decoded(m, s).value; s == Encoded(n) + rest
  {
    EncodingIsUnique(m, -1, [], s);
    assert [] + s == s;
  }
}
