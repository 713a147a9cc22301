/** The Keccak permutation and sponge as FIPS 202 defines them, on strings of
    bits.  Nothing here knows of lanes, bytes or tables. */
module Fips202 {

  /** Bit (x, y, z) of a state is at 64 * (5y + x) + z, as in section 3.1.2. */
  type Bits = s: seq<bool> | |s| == 1600 witness seq(1600, _ => false)

  predicate At(s: Bits, x: nat, y: nat, z: nat)
    requires x < 5 && y < 5 && z < 64
  {
    s[64 * (5 * y + x) + z]
  }

  /** Addition modulo 2. */
  predicate Odd(a: bool, b: bool) { a != b }

  // ---------------------------------------------------------------- the step mappings

  predicate Parity(s: Bits, x: nat, z: nat)
    requires x < 5 && z < 64
  {
    Odd(Odd(Odd(Odd(At(s, x, 0, z), At(s, x, 1, z)), At(s, x, 2, z)), At(s, x, 3, z)), At(s, x, 4, z))
  }

  /** Section 3.2.1: the parities of the column before, and of the one behind
      it a place lower, are added. */
  predicate ThetaBit(s: Bits, x: nat, y: nat, z: nat)
    requires x < 5 && y < 5 && z < 64
  {
    Odd(At(s, x, y, z), Odd(Parity(s, (x + 4) % 5, z), Parity(s, (x + 1) % 5, (z + 63) % 64)))
  }

  function Theta(s: Bits): Bits {
    seq(1600, i requires 0 <= i < 1600 => ThetaBit(s, i / 64 % 5, i / 64 / 5, i % 64))
  }

  /** The walk of section 3.2.2 from (1, 0). */
  function Walk(t: nat): (p: (nat, nat))
    ensures p.0 < 5 && p.1 < 5
  {
    if t == 0 then (1, 0) else var (x, y) := Walk(t - 1); (y, (2 * x + 3 * y) % 5)
  }

  /** The triangular number of the step that comes to (x, y), searched from step
      t on; (0, 0) is not on the walk. */
  function Offset(x: nat, y: nat, t: nat): nat
    decreases 24 - t
  {
    if t >= 24 then 0
    else if Walk(t) == (x, y) then (t + 1) * (t + 2) / 2
    else Offset(x, y, t + 1)
  }

  predicate RhoBit(s: Bits, x: nat, y: nat, z: nat)
    requires x < 5 && y < 5 && z < 64
  {
    At(s, x, y, (z - Offset(x, y, 0)) % 64)
  }

  function Rho(s: Bits): Bits {
    seq(1600, i requires 0 <= i < 1600 => RhoBit(s, i / 64 % 5, i / 64 / 5, i % 64))
  }

  /** Section 3.2.3. */
  predicate PiBit(s: Bits, x: nat, y: nat, z: nat)
    requires x < 5 && y < 5 && z < 64
  {
    At(s, (x + 3 * y) % 5, x, z)
  }

  function Pi(s: Bits): Bits {
    seq(1600, i requires 0 <= i < 1600 => PiBit(s, i / 64 % 5, i / 64 / 5, i % 64))
  }

  /** Section 3.2.4. */
  predicate ChiBit(s: Bits, x: nat, y: nat, z: nat)
    requires x < 5 && y < 5 && z < 64
  {
    Odd(At(s, x, y, z), !At(s, (x + 1) % 5, y, z) && At(s, (x + 2) % 5, y, z))
  }

  function Chi(s: Bits): Bits {
    seq(1600, i requires 0 <= i < 1600 => ChiBit(s, i / 64 % 5, i / 64 / 5, i % 64))
  }

  /** The shift register of section 3.2.5. */
  type Eight = r: seq<bool> | |r| == 8 witness seq(8, _ => false)

  function Shift(r: Eight): Eight {
    [r[7], r[0], r[1], r[2], Odd(r[3], r[7]), Odd(r[4], r[7]), Odd(r[5], r[7]), r[6]]
  }

  function Register(t: nat): Eight {
    if t == 0 then [true, false, false, false, false, false, false, false] else Shift(Register(t - 1))
  }

  /** The constant of round r has outputs of the register at the bits 2^j - 1. */
  predicate Constant(r: nat, z: nat) {
    || (z == 0 && Register(7 * r)[0]) || (z == 1 && Register(7 * r + 1)[0]) || (z == 3 && Register(7 * r + 2)[0])
    || (z == 7 && Register(7 * r + 3)[0]) || (z == 15 && Register(7 * r + 4)[0])
    || (z == 31 && Register(7 * r + 5)[0]) || (z == 63 && Register(7 * r + 6)[0])
  }

  predicate IotaBit(s: Bits, r: nat, x: nat, y: nat, z: nat)
    requires x < 5 && y < 5 && z < 64
  {
    Odd(At(s, x, y, z), x == 0 && y == 0 && Constant(r, z))
  }

  function Iota(s: Bits, r: nat): Bits {
    seq(1600, i requires 0 <= i < 1600 => IotaBit(s, r, i / 64 % 5, i / 64 / 5, i % 64))
  }

  // ---------------------------------------------------------------- permutation and sponge

  function Rounds(s: Bits, n: nat): Bits {
    if n == 0 then s else Iota(Chi(Pi(Rho(Theta(Rounds(s, n - 1))))), n - 1)
  }

  function Permutation(s: Bits): Bits { Rounds(s, 24) }

  /** The multi-rate padding of section 5.1: a 1, as few 0s as make whole
      blocks, and a 1. */
  function Pad101(blockBits: nat, m: nat): seq<bool>
    requires blockBits > 0
  {
    [true] + seq((-(m + 2)) % blockBits, _ => false) + [true]
  }

  function AddBlock(s: Bits, block: seq<bool>): Bits {
    seq(1600, i requires 0 <= i < 1600 => Odd(s[i], i < |block| && block[i]))
  }

  function Absorb(s: Bits, rate: nat, data: seq<bool>): Bits
    requires rate > 0
    decreases |data|
  {
    if |data| < rate then s else Absorb(Permutation(AddBlock(s, data[..rate])), rate, data[rate..])
  }

  /** Section 4, with a capacity of twice the digest, which one block holds. */
  function Sponge(message: seq<bool>, d: nat): seq<bool>
    requires 0 < d < 533
  {
    var rate := 1600 - 2 * d;
    Absorb(seq(1600, _ => false), rate, message + Pad101(rate, |message|))[..d]
  }
}
