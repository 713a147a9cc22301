/** Numbers in any base, the lowest digit first. */
module Radix {
  import opened Arith

  function Value(b: nat, ds: seq<nat>): nat {
    if ds == [] then 0 else ds[0] + b * Value(b, ds[1..])
  }

  /** The digits of a number, without zeros at the end. */
  function Digits(b: nat, n: nat): seq<nat>
    requires b >= 2
  {
    if n == 0 then []
    else
      Smaller(b, n);
      [n % b] + Digits(b, n / b)
  }

  lemma Smaller(b: nat, n: nat)
    requires b >= 2 && n > 0
    ensures n / b < n
  {
    var q := n / b;
    assert n == q * b + n % b;
    assert q * b == q * 2 + q * (b - 2);
  }

  predicate AreDigits(b: nat, ds: seq<nat>) {
    forall i :: 0 <= i < |ds| ==> ds[i] < b
  }

  predicate Trimmed(ds: seq<nat>) { ds == [] || ds[|ds| - 1] != 0 }

  lemma {:induction false} ValueOfDigits(b: nat, n: nat)
    requires b >= 2
    ensures Value(b, Digits(b, n)) == n && AreDigits(b, Digits(b, n)) && Trimmed(Digits(b, n))
  {
    if n > 0 {
      Smaller(b, n);
      ValueOfDigits(b, n / b);
      assert Digits(b, n)[1..] == Digits(b, n / b);
      LowestDigit(b, n);
    }
  }

  lemma LowestDigit(b: nat, n: nat)
    requires b >= 2
    ensures n == n % b + b * (n / b) && n % b < b
    ensures n / b == 0 ==> n % b == n
  {
    if n / b == 0 {
      assert b * (n / b) == 0;
    }
  }

  lemma {:induction false} DigitsOfValue(b: nat, ds: seq<nat>)
    requires b >= 2 && AreDigits(b, ds) && Trimmed(ds)
    ensures Digits(b, Value(b, ds)) == ds
    ensures ds != [] ==> Value(b, ds) > 0
  {
    if ds != [] {
      var v := Value(b, ds[1..]);
      DigitsOfValue(b, ds[1..]);
      if v > 0 {
        MulAtLeast(v, b);
        assert b * v == v * b;
      } else {
        assert b * v == 0;
      }
      DivModUnique(Value(b, ds), b, v, ds[0]);
      assert ds == [ds[0]] + ds[1..];
    }
  }

  lemma {:induction false} ValueOfZeros(b: nat, ds: seq<nat>, k: nat)
    ensures Value(b, ds + seq(k, _ => 0)) == Value(b, ds)
    decreases |ds|
  {
    if ds == [] {
      assert ds + seq(k, _ => 0) == seq(k, _ => 0);
      OnlyZeros(b, k);
    } else {
      assert (ds + seq(k, _ => 0))[1..] == ds[1..] + seq(k, _ => 0);
      ValueOfZeros(b, ds[1..], k);
    }
  }

  lemma {:induction false} OnlyZeros(b: nat, k: nat)
    ensures Value(b, seq(k, _ => 0)) == 0
  {
    if k > 0 {
      assert seq(k, _ => 0)[1..] == seq(k - 1, _ => 0);
      OnlyZeros(b, k - 1);
    }
  }

  function Reversed<T>(s: seq<T>): (r: seq<T>)
    ensures |r| == |s|
    ensures forall i :: 0 <= i < |s| ==> r[i] == s[|s| - 1 - i]
  {
    seq(|s|, i requires 0 <= i < |s| => s[|s| - 1 - i])
  }

  lemma ReversedTwice<T>(s: seq<T>)
    ensures Reversed(Reversed(s)) == s
  {
  }

  lemma ReversedConcat<T>(a: seq<T>, b: seq<T>)
    ensures Reversed(a + b) == Reversed(b) + Reversed(a)
  {
  }

  /** The value of digits given highest first. */
  function BigEndian(b: nat, ds: seq<nat>): nat { Value(b, Reversed(ds)) }

  lemma BigEndianSnoc(b: nat, ds: seq<nat>, d: nat)
    ensures BigEndian(b, ds + [d]) == BigEndian(b, ds) * b + d
  {
    assert Reversed(ds + [d]) == [d] + Reversed(ds);
    assert ([d] + Reversed(ds))[1..] == Reversed(ds);
  }

  lemma OneDigit(b: nat, d: nat)
    ensures BigEndian(b, [d]) == d
  {
    assert Reversed([d]) == [d];
    assert Value(b, [d][1..]) == 0;
  }

  /** How many of the first digits are 0. */
  function LeadingZeros(ds: seq<nat>): (k: nat)
    ensures k <= |ds|
    ensures forall i :: 0 <= i < k ==> ds[i] == 0
    ensures k < |ds| ==> ds[k] != 0
  {
    if ds == [] || ds[0] != 0 then 0 else 1 + LeadingZeros(ds[1..])
  }

  function Zeros(k: nat): seq<nat> { seq(k, _ => 0) }

  lemma SplitZeros(ds: seq<nat>)
    ensures var k := LeadingZeros(ds); ds == Zeros(k) + ds[k..] && (ds[k..] == [] || ds[k..][0] != 0)
  {
  }

  lemma {:induction false} ZerosCount(k: nat, ds: seq<nat>)
    requires ds == [] || ds[0] != 0
    ensures LeadingZeros(Zeros(k) + ds) == k
  {
    if k > 0 {
      assert (Zeros(k) + ds)[1..] == Zeros(k - 1) + ds;
      ZerosCount(k - 1, ds);
    } else {
      assert Zeros(0) + ds == ds;
    }
  }

  /** A number written highest digit first behind as many zeros. */
  function Rewritten(from: nat, to: nat, ds: seq<nat>): seq<nat>
    requires to >= 2
  {
    Zeros(LeadingZeros(ds)) + Reversed(Digits(to, BigEndian(from, ds)))
  }

  lemma BigEndianOfZeros(b: nat, k: nat, ds: seq<nat>)
    ensures BigEndian(b, Zeros(k) + ds) == BigEndian(b, ds)
  {
    ReversedConcat(Zeros(k), ds);
    assert Reversed(Zeros(k)) == seq(k, _ => 0);
    ValueOfZeros(b, Reversed(ds), k);
  }

  /** The number stays, and so does the count of leading zeros. */
  lemma RewrittenValue(from: nat, to: nat, ds: seq<nat>)
    requires to >= 2
    ensures BigEndian(to, Rewritten(from, to, ds)) == BigEndian(from, ds)
    ensures LeadingZeros(Rewritten(from, to, ds)) == LeadingZeros(ds)
  {
    hide Digits, LeadingZeros;
    var n := BigEndian(from, ds);
    BigEndianOfDigits(to, n);
    BigEndianOfZeros(to, LeadingZeros(ds), Reversed(Digits(to, n)));
    ZerosCount(LeadingZeros(ds), Reversed(Digits(to, n)));
  }

  /** Changing the base and changing it back gives the digits back, leading
      zeros included. */
  lemma RewrittenTwice(from: nat, to: nat, ds: seq<nat>)
    requires from >= 2 && to >= 2 && AreDigits(from, ds)
    ensures AreDigits(to, Rewritten(from, to, ds))
    ensures Rewritten(to, from, Rewritten(from, to, ds)) == ds
  {
    hide Value, Digits, Reversed, LeadingZeros;
    var k := LeadingZeros(ds);
    var n, body := BigEndian(from, ds), ds[k..];
    SplitZeros(ds);
    BigEndianOfZeros(from, k, body);
    var out := Reversed(Digits(to, n));
    BigEndianOfDigits(to, n);
    ZerosCount(k, out);
    BigEndianOfZeros(to, k, out);
    DigitsOfBigEndian(from, body);
  }

  lemma BigEndianOfDigits(b: nat, n: nat)
    requires b >= 2
    ensures var ds := Reversed(Digits(b, n));
      BigEndian(b, ds) == n && AreDigits(b, ds) && (ds == [] || ds[0] != 0)
  {
    ValueOfDigits(b, n);
    ReversedTwice(Digits(b, n));
  }

  lemma DigitsOfBigEndian(b: nat, ds: seq<nat>)
    requires b >= 2 && AreDigits(b, ds) && (ds == [] || ds[0] != 0)
    ensures Reversed(Digits(b, BigEndian(b, ds))) == ds
  {
    DigitsOfValue(b, Reversed(ds));
    ReversedTwice(ds);
  }
}
