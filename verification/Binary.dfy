/** Numbers written in bits, the lowest first. */
module Binary {

  function Bit(b: bool): nat { if b then 1 else 0 }

  function NumberOf(bits: seq<bool>): nat {
    if bits == [] then 0 else Bit(bits[0]) + 2 * NumberOf(bits[1..])
  }

  function BitsOf(x: nat, n: nat): (r: seq<bool>)
    ensures |r| == n
  {
    if n == 0 then [] else [x % 2 == 1] + BitsOf(x / 2, n - 1)
  }

  function Pow2(n: nat): nat { if n == 0 then 1 else 2 * Pow2(n - 1) }

  lemma {:induction false} BitsRoundTrip(bits: seq<bool>)
    ensures NumberOf(bits) < Pow2(|bits|) && BitsOf(NumberOf(bits), |bits|) == bits
  {
    if bits != [] {
      BitsRoundTrip(bits[1..]);
    }
  }

  lemma {:induction false} NumberOfSnoc(bits: seq<bool>, b: bool)
    ensures NumberOf(bits + [b]) == NumberOf(bits) + Bit(b) * Pow2(|bits|)
  {
    if bits != [] {
      assert (bits + [b])[1..] == bits[1..] + [b];
      NumberOfSnoc(bits[1..], b);
    }
  }

  lemma {:induction false} NumberOfZero(bits: seq<bool>)
    ensures NumberOf(bits) == 0 <==> forall i :: 0 <= i < |bits| ==> !bits[i]
  {
    if bits != [] {
      NumberOfZero(bits[1..]);
      if NumberOf(bits) == 0 {
        forall i | 0 <= i < |bits| ensures !bits[i] {
          if i > 0 { assert !bits[1..][i - 1]; }
        }
      }
    }
  }
}
