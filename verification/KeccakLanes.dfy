/** The rounds of src/keccak.c on the 25 lanes of the state, in place.  A round
    does not move lanes: from one round to the next they change names, and only
    every eighth round are they put back where their names say. */
module KeccakLanes {
  import opened Keccak
  import opened KeccakBits
  import Fips = Fips202

  /** NAMES[r][i] is where the lane that logically has index i is kept after r
      rounds. */
  const NAMES: seq<seq<nat>> := [
    [0, 1, 2, 3, 4, 5, 6, 7, 8, 9, 10, 11, 12, 13, 14, 15, 16, 17, 18, 19, 20, 21, 22, 23, 24],
    [0, 6, 12, 18, 24, 3, 9, 10, 16, 22, 1, 7, 13, 19, 20, 4, 5, 11, 17, 23, 2, 8, 14, 15, 21],
    [0, 9, 13, 17, 21, 18, 22, 1, 5, 14, 6, 10, 19, 23, 2, 24, 3, 7, 11, 15, 12, 16, 20, 4, 8],
    [0, 22, 19, 11, 8, 17, 14, 6, 3, 20, 9, 1, 23, 15, 12, 21, 18, 10, 7, 4, 13, 5, 2, 24, 16],
    [0, 14, 23, 7, 16, 11, 20, 9, 18, 2, 22, 6, 15, 4, 13, 8, 17, 1, 10, 24, 19, 3, 12, 21, 5],
    [0, 20, 15, 10, 5, 7, 2, 22, 17, 12, 14, 9, 4, 24, 19, 16, 11, 6, 1, 21, 23, 18, 13, 8, 3],
    [0, 2, 4, 1, 3, 10, 12, 14, 11, 13, 20, 22, 24, 21, 23, 5, 7, 9, 6, 8, 15, 17, 19, 16, 18],
    [0, 12, 24, 6, 18, 1, 13, 20, 7, 19, 2, 14, 21, 8, 15, 3, 10, 22, 9, 16, 4, 11, 23, 5, 17],
    [0, 13, 21, 9, 17, 6, 19, 2, 10, 23, 12, 20, 8, 16, 4, 18, 1, 14, 22, 5, 24, 7, 15, 3, 11]]

  /** Where the pi step takes a lane to. */
  const PI_BACK: seq<nat> := [
    0, 10, 20, 5, 15, 16, 1, 11, 21, 6, 7, 17, 2, 12, 22, 23, 8, 18, 3, 13, 14, 24, 9, 19, 4]

  /** 25 different places. */
  ghost predicate Naming(p: seq<nat>) {
    && |p| == 25 && (forall i :: 0 <= i < 25 ==> p[i] < 25)
    && (forall i, j :: 0 <= i < j < 25 ==> p[i] != p[j])
  }

  /** The lanes in their logical order. */
  ghost function Named(p: seq<nat>, s: Lanes): Lanes
    requires Naming(p)
  {
    seq(25, i requires 0 <= i < 25 => s[p[i]])
  }

  lemma PiBack(i: nat)
    requires i < 25
    ensures PI[i] < 25 && PI_BACK[PI[i]] == i
  {
    LaneIndex(i);
  }

  lemma NamesFollowPi(r: nat, i: nat)
    requires r < 8 && i < 25
    ensures |NAMES[r]| == 25 && |NAMES[r + 1]| == 25 && PI[i] < 25
    ensures NAMES[r + 1][i] == NAMES[r][PI[i]]
  {
    LaneIndex(i);
    assert r == 0 || r == 1 || r == 2 || r == 3 || r == 4 || r == 5 || r == 6 || r == 7;
  }

  lemma NamingAlong(p: seq<nat>, q: seq<nat>, to: seq<nat>, back: seq<nat>)
    requires Naming(p) && |q| == |to| == |back| == 25
    requires forall i :: 0 <= i < 25 ==> to[i] < 25 && back[to[i]] == i && q[i] == p[to[i]]
    ensures Naming(q)
  {
    forall i, j | 0 <= i < j < 25 ensures q[i] != q[j] {
      assert back[to[i]] == i && back[to[j]] == j;
    }
  }

  lemma FirstNaming()
    ensures Naming(NAMES[0])
  {
    forall i | 0 <= i < 25 ensures NAMES[0][i] == i {
      LaneIndex(i);
    }
  }

  /** Every table is a naming: the next is the one before along pi. */
  lemma {:induction false} NamesAreNamings(r: nat)
    requires r <= 8
    ensures Naming(NAMES[r])
  {
    if r == 0 {
      FirstNaming();
    } else {
      NamesAreNamings(r - 1);
      NamesFollowPi(r - 1, 0);
      NamesAlongPi(r - 1);
      NamingAlong(NAMES[r - 1], NAMES[r], PI, PI_BACK);
    }
  }

  lemma NamesAlongPi(r: nat)
    requires r < 8
    ensures |NAMES[r]| == |NAMES[r + 1]| == |PI| == |PI_BACK| == 25
    ensures forall i :: 0 <= i < 25 ==> PI[i] < 25 && PI_BACK[PI[i]] == i && NAMES[r + 1][i] == NAMES[r][PI[i]]
  {
    NamesFollowPi(r, 0);
    forall i | 0 <= i < 25
      ensures PI[i] < 25 && PI_BACK[PI[i]] == i && NAMES[r + 1][i] == NAMES[r][PI[i]]
    {
      PiBack(i);
      NamesFollowPi(r, i);
    }
  }

  /** The lanes under the next names are the lanes after pi. */
  lemma RenamingIsPi(r: nat, s: Lanes)
    requires r < 8
    ensures Naming(NAMES[r]) && Naming(NAMES[r + 1])
    ensures Named(NAMES[r + 1], s) == Pi(Named(NAMES[r], s))
  {
    NamesAreNamings(r);
    NamesAreNamings(r + 1);
    NamesAlongPi(r);
  }

  // ---------------------------------------------------------------- the steps in place

  lemma XorAssoc(a: Lane, b: Lane, c: Lane)
    ensures Xor(Xor(a, b), c) == Xor(a, Xor(b, c))
  {
    assert (a ^ b) ^ c == a ^ (b ^ c);
  }

  lemma XorComm(a: Lane, b: Lane)
    ensures Xor(a, b) == Xor(b, a)
  {
  }

  /** The parity of a column, in the two orders in which TH_ELT combines it. */
  lemma ColumnInPairs(a: Lane, b: Lane, c: Lane, d: Lane, e: Lane)
    ensures Xor(Xor(Xor(a, b), e), Xor(c, d)) == Xor(Xor(Xor(Xor(a, b), c), d), e)
  {
    hide Xor;
    XorAssoc(Xor(a, b), e, Xor(c, d));
    XorComm(e, Xor(c, d));
    XorAssoc(Xor(a, b), Xor(c, d), e);
    XorAssoc(Xor(a, b), c, d);
  }

  lemma ColumnLate(t: Lane, a: Lane, b: Lane, c: Lane, d: Lane, e: Lane)
    ensures Xor(Xor(t, e), Xor(Xor(a, b), Xor(c, d))) == Xor(Xor(Xor(Xor(Xor(a, b), c), d), e), t)
  {
    hide Xor;
    XorAssoc(Xor(a, b), c, d);
    XorComm(Xor(t, e), Xor(Xor(Xor(a, b), c), d));
    XorComm(t, e);
    XorAssoc(Xor(Xor(Xor(a, b), c), d), e, t);
  }

  /** What theta adds to column x: column c as it is and column d rotated. */
  method ThElt(a: array<Lane>, p: seq<nat>, x: nat, c: nat, d: nat) returns (t: Lane)
    requires a.Length == 25 && Naming(p) && x < 5 && c == (x + 4) % 5 && d == (x + 1) % 5
    ensures t == ThetaLane(Named(p, a[..]), x)
    ensures var s := Flat(Named(p, a[..])); forall z :: 0 <= z < 64 ==>
      LaneBit(t, z) == Fips.Odd(Fips.Parity(s, c, z), Fips.Parity(s, d, (z + 63) % 64))
  {
    hide Xor, Flat, LaneBit, Fips.Parity, Fips.Odd;
    var tt0 := Xor(a[p[d]], a[p[d + 5]]);
    var tt1 := Xor(a[p[d + 10]], a[p[d + 15]]);
    tt0 := Xor(tt0, a[p[d + 20]]);
    tt0 := Xor(tt0, tt1);
    ColumnInPairs(a[p[d]], a[p[d + 5]], a[p[d + 10]], a[p[d + 15]], a[p[d + 20]]);
    assert tt0 == Column(Named(p, a[..]), d);
    tt0 := Rol(tt0, 1);
    var tt2 := Xor(a[p[c]], a[p[c + 5]]);
    var tt3 := Xor(a[p[c + 10]], a[p[c + 15]]);
    ColumnLate(tt0, a[p[c]], a[p[c + 5]], a[p[c + 10]], a[p[c + 15]], a[p[c + 20]]);
    tt0 := Xor(tt0, a[p[c + 20]]);
    tt2 := Xor(tt2, tt3);
    t := Xor(tt0, tt2);
    forall z | 0 <= z < 64 ensures LaneBit(t, z) ==
      Fips.Odd(Fips.Parity(Flat(Named(p, a[..])), c, z), Fips.Parity(Flat(Named(p, a[..])), d, (z + 63) % 64))
    {
      ThetaLaneBit(Named(p, a[..]), x, z);
    }
  }

  method ThetaInPlace(a: array<Lane>, p: seq<nat>)
    requires a.Length == 25 && Naming(p)
    modifies a
    ensures Named(p, a[..]) == Theta(Named(p, old(a[..])))
    ensures Flat(Named(p, a[..])) == Fips.Theta(Flat(Named(p, old(a[..]))))
  {
    hide Xor, ThetaLane, Flat, Fips.Theta;
    var t0 := ThElt(a, p, 0, 4, 1);
    var t1 := ThElt(a, p, 1, 0, 2);
    var t2 := ThElt(a, p, 2, 1, 3);
    var t3 := ThElt(a, p, 3, 2, 4);
    var t4 := ThElt(a, p, 4, 3, 0);
    var t := [t0, t1, t2, t3, t4];
    ghost var s := Named(p, a[..]);
    AddToColumns(a, p, t);
    ThetaOnBits(s);
  }

  /** Every lane has the part for its column added. */
  method AddToColumns(a: array<Lane>, p: seq<nat>, t: seq<Lane>)
    requires a.Length == 25 && Naming(p) && |t| == 5
    modifies a
    ensures forall k :: 0 <= k < 25 ==> a[p[k]] == Xor(old(a[p[k]]), t[k % 5])
  {
    hide Xor;
    for i := 0 to 25
      invariant forall k :: 0 <= k < i ==> a[p[k]] == Xor(old(a[p[k]]), t[k % 5])
      invariant forall k :: i <= k < 25 ==> a[p[k]] == old(a[p[k]])
    {
      a[p[i]] := Xor(a[p[i]], t[i % 5]);
    }
  }

  method RhoInPlace(a: array<Lane>, p: seq<nat>)
    requires a.Length == 25 && Naming(p)
    modifies a
    ensures Named(p, a[..]) == Rho(Named(p, old(a[..])))
    ensures Flat(Named(p, a[..])) == Fips.Rho(Flat(Named(p, old(a[..]))))
  {
    hide Rol, Flat, Fips.Rho;
    ghost var s := Named(p, a[..]);
    for i := 0 to 25
      invariant forall k :: 0 <= k < i ==> a[p[k]] == Rol(s[k], OFFSETS[k])
      invariant forall k :: i <= k < 25 ==> a[p[k]] == s[k]
    {
      a[p[i]] := Rol(a[p[i]], OFFSETS[i]);
    }
    RhoOnBits(s);
  }

  /** The gates of row y, read from the five lanes and written back to them. */
  method KhiRowInPlace(a: array<Lane>, p: seq<nat>, y: nat)
    requires a.Length == 25 && Naming(p) && y < 5
    modifies a
    ensures RowOf(Named(p, a[..]), y) == KhiRow(y, RowOf(Named(p, old(a[..])), y))
    ensures forall k :: 0 <= k < 25 && k / 5 != y ==> a[p[k]] == old(a[p[k]])
  {
    hide KhiRow;
    var b := 5 * y;
    var c := KhiRow(y, (a[p[b]], a[p[b + 1]], a[p[b + 2]], a[p[b + 3]], a[p[b + 4]]));
    a[p[b]] := c.0;
    a[p[b + 1]] := c.1;
    a[p[b + 2]] := c.2;
    a[p[b + 3]] := c.3;
    a[p[b + 4]] := c.4;
  }

  method KhiInPlace(a: array<Lane>, p: seq<nat>)
    requires a.Length == 25 && Naming(p)
    modifies a
    ensures Named(p, a[..]) == Khi(Named(p, old(a[..])))
  {
    hide KhiRow;
    ghost var s := Named(p, a[..]);
    for y := 0 to 5
      invariant forall z :: 0 <= z < y ==> RowOf(Named(p, a[..]), z) == KhiRow(z, RowOf(s, z))
      invariant forall k :: 5 * y <= k < 25 ==> a[p[k]] == s[k]
    {
      ghost var t := Named(p, a[..]);
      KhiRowInPlace(a, p, y);
      RowElsewhere(t, Named(p, a[..]), y);
      RowSame(s, t, y);
    }
    forall y | 0 <= y < 5 ensures RowOf(Named(p, a[..]), y) == RowOf(Khi(s), y) {
      RowOfKhi(s, y);
    }
    RowsDetermine(Named(p, a[..]), Khi(s));
  }

  lemma RowElsewhere(s: Lanes, t: Lanes, y: nat)
    requires forall k :: 0 <= k < 25 && k / 5 != y ==> t[k] == s[k]
    ensures forall z :: 0 <= z < 5 && z != y ==> RowOf(t, z) == RowOf(s, z)
  {
    forall z | 0 <= z < 5 && z != y ensures RowOf(t, z) == RowOf(s, z) {
      assert (5 * z) / 5 == (5 * z + 1) / 5 == (5 * z + 2) / 5 == (5 * z + 3) / 5 == (5 * z + 4) / 5 == z;
    }
  }

  lemma RowSame(s: Lanes, t: Lanes, y: nat)
    requires y < 5 && forall k :: 5 * y <= k < 25 ==> t[k] == s[k]
    ensures RowOf(t, y) == RowOf(s, y)
  {
  }

  /** A round under the r-th names leaves its lanes under the next names. */
  method KfElt(a: array<Lane>, r: nat, k: Lane)
    requires a.Length == 25 && r < 8 < |NAMES| && Naming(NAMES[r]) && Naming(NAMES[r + 1])
    modifies a
    ensures Named(NAMES[r + 1], a[..]) == OptRound(Named(NAMES[r], old(a[..])), k)
  {
    hide NAMES, Theta, Rho, Pi, Khi, Named, Naming;
    ThetaInPlace(a, NAMES[r]);
    RhoInPlace(a, NAMES[r]);
    RenamingIsPi(r, a[..]);
    KhiInPlace(a, NAMES[r + 1]);
    ghost var s := a[..];
    FirstStays(r + 1);
    a[0] := Xor(a[0], k);
    NamedUpdate(NAMES[r + 1], s, a[..]);
  }

  lemma FirstStays(r: nat)
    requires r <= 8
    ensures |NAMES[r]| == 25 && NAMES[r][0] == 0
  {
    assert r == 0 || r == 1 || r == 2 || r == 3 || r == 4 || r == 5 || r == 6 || r == 7 || r == 8;
  }

  lemma NamedUpdate(p: seq<nat>, s: Lanes, t: Lanes)
    requires Naming(p) && p[0] == 0 && t == s[0 := t[0]]
    ensures Named(p, t) == Named(p, s)[0 := t[0]] && Named(p, s)[0] == s[0]
  {
  }

  /** Three lanes move round. */
  method Cycle(a: array<Lane>, i: nat, j: nat, k: nat)
    requires a.Length == 25 && i < 25 && j < 25 && k < 25 && i != j && j != k && i != k
    modifies a
    ensures a[..] == Cycled(old(a[..]), i, j, k)
  {
    var t := a[i];
    a[i] := a[j];
    a[j] := a[k];
    a[k] := t;
  }

  function Cycled(s: Lanes, i: nat, j: nat, k: nat): Lanes
    requires i < 25 && j < 25 && k < 25
  {
    s[i := s[j]][j := s[k]][k := s[i]]
  }

  /** Put the lanes back after eight rounds. */
  method P8ToP0(a: array<Lane>)
    requires a.Length == 25 && Naming(NAMES[8])
    modifies a
    ensures a[..] == Named(NAMES[8], old(a[..]))
  {
    hide Cycled, Named, Naming;
    ghost var s := a[..];
    Cycle(a, 5, 6, 19);
    Cycle(a, 10, 12, 8);
    Cycle(a, 15, 18, 22);
    Cycle(a, 20, 24, 11);
    Cycle(a, 1, 13, 16);
    Cycle(a, 21, 7, 2);
    Cycle(a, 17, 14, 4);
    Cycle(a, 3, 9, 23);
    CyclesNamed(s);
  }

  lemma CyclesNamed(s: Lanes)
    requires Naming(NAMES[8])
    ensures var t := Cycled(Cycled(Cycled(Cycled(s, 5, 6, 19), 10, 12, 8), 15, 18, 22), 20, 24, 11);
      Cycled(Cycled(Cycled(Cycled(t, 1, 13, 16), 21, 7, 2), 17, 14, 4), 3, 9, 23) == Named(NAMES[8], s)
  {
    var t := Cycled(Cycled(Cycled(Cycled(s, 5, 6, 19), 10, 12, 8), 15, 18, 22), 20, 24, 11);
    var u := Cycled(Cycled(Cycled(Cycled(t, 1, 13, 16), 21, 7, 2), 17, 14, 4), 3, 9, 23);
    forall i | 0 <= i < 25 ensures u[i] == s[NAMES[8][i]] {
      LaneIndex(i);
    }
  }

  /** The permutation: three times eight rounds. */
  method KeccakF1600(a: array<Lane>)
    requires a.Length == 25
    modifies a
    ensures a[..] == OptRounds(old(a[..]), 0, 24)
    ensures Flat(Masked(a[..], MASK)) == Fips.Permutation(Flat(Masked(old(a[..]), MASK)))
  {
    hide NAMES, OptRound, Named, Naming, Flat, Masked, Fips.Permutation;
    ghost var s: Lanes := a[..];
    var j := 0;
    while j < 24
      invariant 0 <= j <= 24 && (j == 0 || j == 8 || j == 16 || j == 24)
      invariant a[..] == OptRounds(s, 0, j)
    {
      FirstNames(a[..]);
      for r := 0 to 8
        invariant |NAMES| == 9 && Naming(NAMES[r])
        invariant Named(NAMES[r], a[..]) == OptRounds(s, 0, j + r)
      {
        NamesAreNamings(r + 1);
        KfElt(a, r, RC[j + r]);
      }
      P8ToP0(a);
      j := j + 8;
    }
    UnmaskedOnBits(s);
  }

  /** With the six lanes complemented back it is the permutation of the standard. */
  lemma UnmaskedOnBits(s: Lanes)
    ensures Flat(Masked(OptRounds(s, 0, 24), MASK)) == Fips.Permutation(Flat(Masked(s, MASK)))
  {
    hide Flat, Masked, OptRounds, Fips.Permutation;
    var plain := Masked(s, MASK);
    MaskedTwice(s);
    MaskedRounds(plain, 0, 24);
    MaskedTwice(KeccakF(plain));
    PermutationOnBits(plain);
  }

  lemma FirstNames(s: Lanes)
    ensures |NAMES| == 9 && Naming(NAMES[0]) && Named(NAMES[0], s) == s
  {
    NamesAreNamings(0);
    forall i | 0 <= i < 25 ensures Named(NAMES[0], s)[i] == s[i] {
      LaneIndex(i);
    }
  }
}
