/** Facts about products, quotients and sets that the solver needs to be told. */
module Arith {

  lemma MulAtLeast(q: nat, d: nat)
    requires d > 0
    ensures q <= q * d
  {
    assert q * d == q * (d - 1) + q;
  }

  lemma QuotientFits(a: nat, d: nat)
    requires d > 0
    ensures (a / d) * d <= a
  {
  }

  lemma QuotientIsMost(a: nat, d: nat)
    requires d > 0
    ensures (a / d + 1) * d > a
  {
    assert a == a / d * d + a % d;
  }

  lemma QuotientReaches(a: nat, d: nat, q: nat)
    requires d > 0 && q * d <= a
    ensures q <= a / d
  {
    var rest := a - q * d;
    assert (q + rest / d) * d + rest % d == a;
    DivModUnique(a, d, q + rest / d, rest % d);
  }

  lemma MulMonotone(a: nat, b: nat, d: nat)
    requires a <= b
    ensures a * d <= b * d
  {
    assert b * d == a * d + (b - a) * d;
  }

  /** Fewer parts are larger. */
  lemma LargerShare(a: nat, d: nat, e: nat)
    requires 0 < e <= d
    ensures a / d <= a / e
  {
    var q := a / d;
    QuotientFits(a, d);
    assert q * d == q * e + q * (d - e);
    QuotientReaches(a, e, q);
  }

  lemma DivAtMost(a: nat, d: nat)
    requires d > 0
    ensures a / d <= a
  {
    MulAtLeast(a / d, d);
    QuotientFits(a, d);
  }

  lemma HasMember(s: set<int>)
    requires s != {}
    ensures exists x :: x in s
  {
    assert (forall x :: x !in s) ==> s == {};
  }

  lemma MulGap(k: int, d: nat)
    requires k >= 1
    ensures k * d >= d
  {
    assert k * d == (k - 1) * d + d;
  }

  lemma DivModUnique(a: int, d: nat, q: int, r: nat)
    requires r < d && a == q * d + r
    ensures a / d == q && a % d == r
  {
    var q', r' := a / d, a % d;
    assert a == q' * d + r';
    assert (q - q') * d == r' - r && (q' - q) * d == r - r';
    if q > q' {
      MulGap(q - q', d);
    } else if q < q' {
      MulGap(q' - q, d);
    }
  }

  lemma ModSub(a: nat, d: nat)
    requires 0 < d <= a
    ensures (a - d) % d == a % d && (a - d) / d == a / d - 1
  {
    var q, r := (a - d) / d, (a - d) % d;
    assert a == q * d + r + d == (q + 1) * d + r;
    DivModUnique(a, d, q + 1, r);
  }
}
