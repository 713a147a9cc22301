/** The BLAKE-512 and BLAKE-384 context of src/blake.c: buffered input, the
    two-word bit counter and the closing step, against the iterated hash of
    section 2.2 of the SHA-3 proposal BLAKE.  The compression function is any
    function. */
module Blake {
  import opened Arith
  import opened Streaming
  import opened ByteBits

  const W: nat := 0x1_0000_0000_0000_0000
  const WW: nat := W * W
  type Word = x: nat | x < W

  type Chain = h: seq<Word> | |h| == 8 witness seq(8, _ => 0)

  /** Of a chain value, a salt, the low and high counter word, and a block. */
  type Compression = (Chain, seq<Word>, Word, Word, seq<Byte>) -> Chain

  datatype Core = Core(f: Compression, h: Chain, s: seq<Word>, t0: Word, t1: Word)

  /** The counter as one number. */
  function Count(c: Core): (t: nat)
    ensures t < WW
  {
    WordsBelow(c.t0, c.t1);
    c.t0 + W * c.t1
  }

  lemma WordsBelow(lo: Word, hi: Word)
    ensures lo + W * hi < WW
  {
    assert W * hi <= W * (W - 1);
  }

  function LowWord(t: nat): Word { t % W }

  function HighWord(t: nat): Word
    requires t < WW
  {
    t / W
  }

  /** A full block: count its bits, carry, compress. */
  function Step(c: Core, block: seq<Byte>): Core {
    var t0 := (c.t0 + 1024) % W;
    var t1 := if t0 < 1024 then (c.t1 + 1) % W else c.t1;
    Core(c.f, c.f(c.h, c.s, t0, t1, block), c.s, t0, t1)
  }

  lemma StepCounts(c: Core, block: seq<Byte>)
    ensures Count(Step(c, block)) == (Count(c) + 1024) % WW
  {
    var c' := Step(c, block);
    if c'.t0 >= 1024 {
      assert Count(c') == Count(c) + 1024;
    } else if c.t1 + 1 < W {
      assert Count(c') == Count(c) + 1024;
    } else {
      assert Count(c) + 1024 == c'.t0 + WW;
    }
  }

  lemma CountSplits(c: Core)
    ensures c.t0 == LowWord(Count(c)) && c.t1 == HighWord(Count(c))
  {
  }

  // ---------------------------------------------------------------- the iterated hash

  /** The counter for the block before which `done` of m message bits went:
      the message bits up to its end, or 0 if it holds none. */
  function Counter(done: nat, m: nat): (t: nat)
    ensures t < WW
  {
    if done >= m then 0 else if m <= done + 1024 then m % WW else (done + 1024) % WW
  }

  function Hash(f: Compression, h: Chain, s: seq<Word>, data: seq<Byte>, done: nat, m: nat): Chain
    decreases |data|
  {
    if |data| < 128 then h
    else
      var t := Counter(done, m);
      Hash(f, f(h, s, LowWord(t), HighWord(t), data[..128]), s, data[128..], done + 1024, m)
  }

  /** Whole blocks first, then the rest. */
  lemma {:induction false} HashMore(f: Compression, h: Chain, s: seq<Word>, a: seq<Byte>, b: seq<Byte>,
                                    done: nat, m: nat)
    requires |a| % 128 == 0
    ensures Hash(f, h, s, a + b, done, m) == Hash(f, Hash(f, h, s, a, done, m), s, b, done + 8 * |a|, m)
    decreases |a|
  {
    if a == [] {
      assert a + b == b;
    } else {
      assert (a + b)[..128] == a[..128] && (a + b)[128..] == a[128..] + b;
      var t := Counter(done, m);
      HashMore(f, f(h, s, LowWord(t), HighWord(t), a[..128]), s, a[128..], b, done + 1024, m);
    }
  }

  /** Absorbing whole blocks of message is the iterated hash of them, and the
      counter is the number of bits absorbed, in two words that wrap. */
  lemma {:induction false} AbsorbHashes(c: Core, data: seq<Byte>, done: nat, m: nat)
    requires Count(c) == done % WW && done + 8 * |data| <= m && |data| % 128 == 0
    ensures var c' := Absorb(Step, 128, c, data);
      && c'.h == Hash(c.f, c.h, c.s, data, done, m) && c'.f == c.f && c'.s == c.s
      && Count(c') == (done + 8 * |data|) % WW
    decreases |data|
  {
    hide Step, Count, Counter, LowWord, HighWord, W, WW;
    if |data| >= 128 {
      var c1 := Step(c, data[..128]);
      StepHashes(c, data[..128], done, m);
      AbsorbHashes(c1, data[128..], done + 1024, m);
    }
  }

  /** A block of nothing but message is compressed with the bits so far. */
  lemma StepHashes(c: Core, block: seq<Byte>, done: nat, m: nat)
    requires Count(c) == done % WW && done + 1024 <= m
    ensures var t := Counter(done, m); var c1 := Step(c, block);
      && Count(c1) == (done + 1024) % WW
      && c1 == Core(c.f, c.f(c.h, c.s, LowWord(t), HighWord(t), block), c.s, LowWord(t), HighWord(t))
  {
    hide Count;
    StepCounts(c, block);
    AddMod(done, 1024, WW);
    CountSplits(Step(c, block));
  }

  lemma AddMod(a: nat, b: nat, d: nat)
    requires d > 0
    ensures (a % d + b) % d == (a + b) % d
  {
    var q, r := (a % d + b) / d, (a % d + b) % d;
    assert a == (a / d) * d + a % d;
    assert (a / d + q) * d == (a / d) * d + q * d;
    DivModUnique(a + b, d, a / d + q, r);
  }

  // ---------------------------------------------------------------- padding

  /** Bit k of a byte, the highest first. */
  predicate Bit(b: Byte, k: nat) {
    k < 8 && Test(b, 7 - k)
  }

  /** The n high bits of ub and a 1 behind them. */
  function HeadByte(ub: Byte, n: nat): Byte
    requires n <= 7
  {
    var z: Byte := 0x80 >> n;
    (ub & (0 - z)) | z
  }

  lemma HeadByteBits(ub: Byte, n: nat, k: nat)
    requires n <= 7 && k < 8
    ensures Bit(HeadByte(ub, n), k) == if k < n then Bit(ub, k) else k == n
  {
    hide Bit, HeadByte;
    if k < n {
      HeadByteExtra(ub, n, k);
    } else {
      HeadByteStop(ub, n, k);
    }
  }

  lemma HeadByteExtra(ub: Byte, n: nat, k: nat)
    requires k < n <= 7
    ensures Bit(HeadByte(ub, n), k) == Bit(ub, k)
  {
  }

  lemma HeadByteStop(ub: Byte, n: nat, k: nat)
    requires n <= k <= 7
    ensures Bit(HeadByte(ub, n), k) == (k == n)
  {
  }

  function FlagByte(flag: bool): Byte { if flag then 1 else 0 }

  /** What follows the held bytes up to the length: zeros in the rest of the
      block if the length fits there, else up to its place in one more block;
      the last bit is the flag. */
  function Padding(held: nat, ub: Byte, n: nat, flag: bool): seq<Byte>
    requires held < 128 && n <= 7
  {
    if 8 * held + n > 894 then [HeadByte(ub, n)] + seq(238 - held, _ => 0) + [FlagByte(flag)]
    else if held < 111 then [HeadByte(ub, n)] + seq(110 - held, _ => 0) + [FlagByte(flag)]
    else [HeadByte(ub, n) | FlagByte(flag)]
  }

  /** A word as eight bytes, the highest first. */
  function Be(x: nat, n: nat): (r: seq<Byte>)
    ensures |r| == n
  {
    if n == 0 then [] else Be(x / 256, n - 1) + [(x % 256) as Byte]
  }

  function Power256(n: nat): (r: nat)
    ensures r > 0
  {
    if n == 0 then 1 else 256 * Power256(n - 1)
  }

  lemma {:induction false} BeAt(x: nat, n: nat, k: nat)
    requires k < n
    ensures Be(x, n)[n - 1 - k] == ((x / Power256(k)) % 256) as Byte
  {
    if k > 0 {
      BeAt(x / 256, n - 1, k - 1);
      DivDiv(x, Power256(k - 1));
    }
  }

  lemma DivDiv(x: nat, p: nat)
    requires p > 0
    ensures x / 256 / p == x / (256 * p)
  {
    var q, r := (x / 256) / p, (x / 256) % p;
    assert x / 256 == q * p + r;
    assert x == 256 * (q * p + r) + x % 256 == q * (256 * p) + (256 * r + x % 256);
    DivModUnique(x, 256 * p, q, 256 * r + x % 256);
  }

  function Length(m: nat): seq<Byte> { Be(m % WW / W, 8) + Be(m % W, 8) }

  /** The padded message. */
  function Padded(message: seq<Byte>, ub: Byte, n: nat, flag: bool): seq<Byte>
    requires n <= 7
  {
    message + Padding(|message| % 128, ub, n, flag) + Length(8 * |message| + n)
  }

  function ExtraBits(ub: Byte, n: nat): seq<bool>
    requires n <= 7
  {
    seq(n, k requires 0 <= k < n => Bit(ub, k))
  }

  function PadBits(ub: Byte, n: nat, z: nat, flag: bool): seq<bool>
    requires n <= 7
  {
    ExtraBits(ub, n) + ([true] + seq(z, _ => false) + [flag])
  }

  lemma FlagBits(b: Byte, flag: bool, k: nat)
    requires k < 8
    ensures Bit(b | FlagByte(flag), k) == (Bit(b, k) || (flag && k == 7))
    ensures Bit(FlagByte(flag), k) == (flag && k == 7) && !Bit(0, k)
  {
  }

  lemma PaddingByteAt(held: nat, ub: Byte, n: nat, flag: bool, j: nat)
    requires held < 128 && n <= 7 && j < |Padding(held, ub, n, flag)|
    ensures var last := j == |Padding(held, ub, n, flag)| - 1;
      Padding(held, ub, n, flag)[j] ==
        if j == 0 then if last then HeadByte(ub, n) | FlagByte(flag) else HeadByte(ub, n)
        else if last then FlagByte(flag) else 0
    ensures |Padding(held, ub, n, flag)| == 1 ==> n < 7
  {
    hide HeadByte, FlagByte;
  }

  lemma PadBitsAt(ub: Byte, n: nat, z: nat, flag: bool, i: nat)
    requires n <= 7 && i < n + z + 2
    ensures PadBits(ub, n, z, flag)[i] == if i < n then Bit(ub, i) else i == n || (i == n + z + 1 && flag)
  {
    hide Bit;
  }

  lemma PaddingBitAt(held: nat, ub: Byte, n: nat, flag: bool, z: nat, i: nat)
    requires held < 128 && n <= 7 && z == 8 * |Padding(held, ub, n, flag)| - n - 2 && i < n + z + 2
    ensures Bits(Bit, Padding(held, ub, n, flag))[i] == PadBits(ub, n, z, flag)[i]
  {
    hide Bit, HeadByte, FlagByte, Padding, PadBits;
    var c := Padding(held, ub, n, flag);
    PadBitsAt(ub, n, z, flag, i);
    PaddingByteAt(held, ub, n, flag, i / 8);
    HeadByteBits(ub, n, i % 8);
    FlagBits(HeadByte(ub, n), flag, i % 8);
    assert Bits(Bit, c)[i] == Bit(c[i / 8], i % 8);
    assert i / 8 == |c| - 1 && i % 8 == 7 <==> i == n + z + 1;
  }

  /** The padding is a 1, as few 0s as fill blocks up to the length, and the
      flag; with the length the padded message is whole blocks. */
  lemma PaddingIsStandard(message: seq<Byte>, ub: Byte, n: nat, flag: bool)
    requires n <= 7
    ensures Bits(Bit, Padding(|message| % 128, ub, n, flag)) ==
      PadBits(ub, n, (-(8 * |message| + n + 130)) % 1024, flag)
    ensures |Padded(message, ub, n, flag)| % 128 == 0
  {
    hide Bits, Padding, PadBits;
    var held := |message| % 128;
    var c := Padding(held, ub, n, flag);
    var z := 8 * |c| - n - 2;
    PaddingLength(held, ub, n, flag);
    PadCount(|message|, held, |c|, n);
    forall i | 0 <= i < n + z + 2 ensures Bits(Bit, c)[i] == PadBits(ub, n, z, flag)[i] {
      PaddingBitAt(held, ub, n, flag, z, i);
    }
  }

  lemma PaddingLength(held: nat, ub: Byte, n: nat, flag: bool)
    requires held < 128 && n <= 7
    ensures |Padding(held, ub, n, flag)| == (if 8 * held + n <= 894 then 112 else 240) - held
    ensures forall z :: 0 <= z ==> |PadBits(ub, n, z, flag)| == n + z + 2
  {
  }

  lemma PadCount(done: nat, held: nat, more: nat, n: nat)
    requires held == done % 128 && n <= 7 && more == (if 8 * held + n <= 894 then 112 else 240) - held
    ensures (-(8 * done + n + 130)) % 1024 == 8 * more - n - 2
    ensures (done + more + 16) % 128 == 0
  {
    var blocks := done / 128 + (if 8 * held + n <= 894 then 1 else 2);
    assert done + more + 16 == 128 * blocks;
    DivModUnique(-(8 * done + n + 130), 1024, -1 * blocks, 8 * more - n - 2);
  }

  // ---------------------------------------------------------------- closing

  /** The digest of a message of whole bytes and n more bits, as chain words. */
  function Reference(f: Compression, iv: Chain, s: seq<Word>, message: seq<Byte>, ub: Byte, n: nat, flag: bool): Chain
    requires n <= 7
  {
    Hash(f, iv, s, Padded(message, ub, n, flag), 0, 8 * |message| + n)
  }

  /** The counter set back, so that the next block brings it to where it
      should be: to 0 without message bits, otherwise to the bits so far. */
  function SetBack(t0: Word, t1: Word, bitLen: nat): (Word, Word)
    requires bitLen < 1024
  {
    if bitLen == 0 then (W - 1024, W - 1)
    else if t0 == 0 then (W - 1024 + bitLen, (t1 - 1) % W)
    else ((t0 - (1024 - bitLen)) % W, t1)
  }

  lemma SetBackCounts(f: Compression, h: Chain, s: seq<Word>, t0: Word, t1: Word, bitLen: nat, block: seq<Byte>)
    requires bitLen < 1024 && t0 % 1024 == 0
    ensures var (b0, b1) := SetBack(t0, t1, bitLen);
      Count(Step(Core(f, h, s, b0, b1), block)) ==
        if bitLen == 0 then 0 else Count(Core(f, h, s, t0, t1)) + bitLen
    ensures Count(Core(f, h, s, t0, t1)) + bitLen < WW
  {
    WordsBelow(t0 + bitLen, t1);
    var (b0, b1) := SetBack(t0, t1, bitLen);
    var c := Step(Core(f, h, s, b0, b1), block);
    if bitLen == 0 {
      assert c.t0 == 0 && c.t1 == 0;
    } else {
      assert c.t0 == t0 + bitLen && c.t1 == t1;
    }
  }

  function WithCounter(c: Core, t0: Word, t1: Word): Core { Core(c.f, c.h, c.s, t0, t1) }

  /** The words that the closing step appends as the length. */
  function LengthOf(t0: Word, t1: Word, bitLen: nat): seq<Byte> {
    Be(t1, 8) + Be((t0 + bitLen) % W, 8)
  }

  /** The closing step: one more block, or two. */
  function Closed(c: Core, held: seq<Byte>, ub: Byte, n: nat, flag: bool): Core
    requires |held| < 128 && n <= 7
  {
    var bitLen := 8 * |held| + n;
    var (b0, b1) := SetBack(c.t0, c.t1, bitLen);
    Ended(WithCounter(c, b0, b1), held, ub, n, flag, LengthOf(c.t0, c.t1, bitLen))
  }

  function Ended(c: Core, held: seq<Byte>, ub: Byte, n: nat, flag: bool, length: seq<Byte>): Core
    requires |held| < 128 && n <= 7
  {
    var pad := Padding(|held|, ub, n, flag);
    PaddingLength(|held|, ub, n, flag);
    if 8 * |held| + n <= 894 then Step(c, held + (pad + length))
    else EndedTwo(c, held, pad[..128 - |held|], pad[128 - |held|..] + length)
  }

  function EndedTwo(c: Core, held: seq<Byte>, u: seq<Byte>, v: seq<Byte>): Core {
    Step(WithCounter(Step(c, held + u), W - 1024, W - 1), v)
  }

  lemma EndedInOne(c: Core, held: seq<Byte>, ub: Byte, n: nat, flag: bool, length: seq<Byte>)
    requires |held| < 128 && n <= 7
    ensures var pad := Padding(|held|, ub, n, flag);
      if 8 * |held| + n <= 894 then Ended(c, held, ub, n, flag, length) == Step(c, held + (pad + length))
      else
        && |pad| == 240 - |held|
        && Ended(c, held, ub, n, flag, length)
           == EndedTwo(c, held, pad[..128 - |held|], pad[128 - |held|..] + length)
  {
    hide Step, Padding, EndedTwo;
    PaddingLength(|held|, ub, n, flag);
  }

  lemma LengthIsStandard(c: Core, bitLen: nat, m: nat)
    requires bitLen < 1024 && c.t0 % 1024 == 0 && Count(c) + bitLen == m % WW
    ensures LengthOf(c.t0, c.t1, bitLen) == Length(m)
  {
    hide Be;
    assert (c.t0 + bitLen) % W == c.t0 + bitLen;
    DivModUnique(m % WW, W, c.t1, c.t0 + bitLen);
    ModMod(m);
  }

  lemma ModMod(m: nat)
    ensures m % WW % W == m % W
  {
    var q := m / WW;
    var r := m % WW;
    assert m == q * WW + r == (q * W + r / W) * W + r % W by {
      assert q * WW == q * W * W;
      assert (q * W + r / W) * W == q * W * W + (r / W) * W;
    }
    DivModUnique(m, W, q * W + r / W, r % W);
  }

  /** One block of hash, from its definition. */
  lemma HashOne(f: Compression, h: Chain, s: seq<Word>, block: seq<Byte>, rest: seq<Byte>, done: nat, m: nat)
    requires |block| == 128
    ensures var t := Counter(done, m);
      Hash(f, h, s, block + rest, done, m) == Hash(f, f(h, s, LowWord(t), HighWord(t), block), s, rest, done + 1024, m)
  {
    assert (block + rest)[..128] == block && (block + rest)[128..] == rest;
  }

  lemma StepIs(c: Core, block: seq<Byte>, t: nat)
    requires t < WW && Count(Step(c, block)) == t
    ensures Step(c, block).h == c.f(c.h, c.s, LowWord(t), HighWord(t), block)
  {
    CountSplits(Step(c, block));
  }

  /** Closing ends the hash of the held bytes and the padding. */
  lemma ClosedHashes(c: Core, held: seq<Byte>, ub: Byte, n: nat, flag: bool, done: nat)
    requires |held| < 128 && n <= 7 && c.t0 % 1024 == 0 && Count(c) == done % WW
    ensures var m := done + 8 * |held| + n;
      Closed(c, held, ub, n, flag).h ==
        Hash(c.f, c.h, c.s, held + (Padding(|held|, ub, n, flag) + Length(m)), done, m)
  {
    hide Count, Step, Length, LengthOf, Padding, LowWord, HighWord, SetBack;
    var bitLen := 8 * |held| + n;
    var m := done + bitLen;
    var pad := Padding(|held|, ub, n, flag);
    PaddingLength(|held|, ub, n, flag);
    var (b0, b1) := SetBack(c.t0, c.t1, bitLen);
    var c1 := WithCounter(c, b0, b1);
    CountAfter(c, bitLen, done);
    LengthIsStandard(c, bitLen, m);
    LengthLength(m);
    var tail := held + (pad + Length(m));
    if bitLen <= 894 {
      FirstBlock(c, bitLen, done, tail);
      assert tail + [] == tail;
      HashOne(c.f, c.h, c.s, tail, [], done, m);
    } else {
      var first := held + pad[..128 - |held|];
      var last := pad[128 - |held|..] + Length(m);
      FirstBlock(c, bitLen, done, first);
      assert tail == first + last && last == last + [];
      HashOne(c.f, c.h, c.s, first, last, done, m);
      var c2 := Step(c1, first);
      StepKeeps(c1, first);
      LastBlock(c2, last);
      HashOne(c.f, c2.h, c.s, last, [], done + 1024, m);
    }
  }

  lemma LengthLength(m: nat)
    ensures |Length(m)| == 16
  {
  }

  lemma StepKeeps(c: Core, block: seq<Byte>)
    ensures Step(c, block).f == c.f && Step(c, block).s == c.s
  {
  }

  lemma CountAfter(c: Core, bitLen: nat, done: nat)
    requires bitLen < 1024 && c.t0 % 1024 == 0 && Count(c) == done % WW
    ensures Count(c) + bitLen == (done + bitLen) % WW
  {
    SetBackCounts(c.f, c.h, c.s, c.t0, c.t1, bitLen, []);
    AddMod(done, bitLen, WW);
  }

  /** The block with the end of the message, if it holds any of it. */
  lemma FirstBlock(c: Core, bitLen: nat, done: nat, block: seq<Byte>)
    requires bitLen < 1024 && c.t0 % 1024 == 0 && Count(c) == done % WW
    ensures var (b0, b1) := SetBack(c.t0, c.t1, bitLen);
      var t := Counter(done, done + bitLen);
      Step(WithCounter(c, b0, b1), block).h == c.f(c.h, c.s, LowWord(t), HighWord(t), block)
  {
    hide Count, Step, LowWord, HighWord, SetBack;
    SetBackCounts(c.f, c.h, c.s, c.t0, c.t1, bitLen, block);
    CountAfter(c, bitLen, done);
    var (b0, b1) := SetBack(c.t0, c.t1, bitLen);
    StepIs(WithCounter(c, b0, b1), block, Counter(done, done + bitLen));
  }

  /** A block of padding only is compressed with counter 0. */
  lemma LastBlock(c: Core, block: seq<Byte>)
    ensures Step(WithCounter(c, W - 1024, W - 1), block).h == c.f(c.h, c.s, LowWord(0), HighWord(0), block)
  {
  }

  /** Fed in any chunks and closed, the context holds the hash of the padded
      message with the standard counters. */
  lemma DigestIsReference(f: Compression, iv: Chain, s: seq<Word>, chunks: seq<seq<Byte>>, ub: Byte, n: nat, flag: bool)
    requires n <= 7
    ensures var x := FedAll(Step, 128, Stream(Core(f, iv, s, 0, 0), []), chunks);
      |x.held| < 128 && Closed(x.state, x.held, ub, n, flag).h == Reference(f, iv, s, Concat(chunks), ub, n, flag)
  {
    hide Step, Closed, Reference, Absorb, Rest;
    var c, message := Core(f, iv, s, 0, 0), Concat(chunks);
    ChunksDoNotMatter(Step, 128, Stream(c, []), chunks);
    assert [] + message == message;
    RestIsTail(Step, 128, c, message);
    var k := |message| - |message| % 128;
    assert message[..k] + message[k..] == message;
    WholeIsReference(c, message[..k], message[k..], ub, n, flag);
  }

  /** With the whole blocks of the message absorbed and the rest held. */
  lemma WholeIsReference(c: Core, whole: seq<Byte>, held: seq<Byte>, ub: Byte, n: nat, flag: bool)
    requires c.t0 == c.t1 == 0 && |whole| % 128 == 0 && |held| < 128 && n <= 7
    ensures Closed(Absorb(Step, 128, c, whole), held, ub, n, flag).h ==
      Reference(c.f, c.h, c.s, whole + held, ub, n, flag)
  {
    hide Step, Closed, Hash, Padding, Length, Absorb, Count, WW, W, Padded;
    var m := 8 * |whole + held| + n;
    AbsorbWhole(c, whole, m);
    ClosedHashes(Absorb(Step, 128, c, whole), held, ub, n, flag, 8 * |whole|);
    var tail := held + (Padding(|held|, ub, n, flag) + Length(m));
    HashMore(c.f, c.h, c.s, whole, tail, 0, m);
    PaddedSplits(whole, held, ub, n, flag);
  }

  lemma PaddedSplits(whole: seq<Byte>, held: seq<Byte>, ub: Byte, n: nat, flag: bool)
    requires |whole| % 128 == 0 && |held| < 128 && n <= 7
    ensures Padded(whole + held, ub, n, flag) ==
      whole + (held + (Padding(|held|, ub, n, flag) + Length(8 * |whole + held| + n)))
  {
    hide Padding, Length;
    assert |whole + held| % 128 == |held|;
  }

  lemma AbsorbWhole(c: Core, whole: seq<Byte>, m: nat)
    requires c.t0 == c.t1 == 0 && |whole| % 128 == 0 && 8 * |whole| <= m
    ensures var x := Absorb(Step, 128, c, whole);
      && x.h == Hash(c.f, c.h, c.s, whole, 0, m) && x.f == c.f && x.s == c.s
      && Count(x) == (8 * |whole|) % WW && x.t0 % 1024 == 0
  {
    hide Step, Hash;
    AbsorbHashes(c, whole, 0, m);
    var x := Absorb(Step, 128, c, whole);
    MultipleOfBlock(|whole|);
    CountSplits(x);
  }

  lemma MultipleOfBlock(k: nat)
    requires k % 128 == 0
    ensures (8 * k) % WW % W % 1024 == 0
  {
    ModMod(8 * k);
    hide WW;
    assert (8 * k) % W % 1024 == 0;
  }

  // ---------------------------------------------------------------- the context

  function Digest(h: Chain, words: nat): seq<Byte>
    requires words <= 8
  {
    if words == 0 then [] else Digest(h, words - 1) + Be(h[words - 1], 8)
  }

  /** Byte j of word k is byte 8k + j of the digest: words in order, each with
      its highest byte first. */
  lemma {:induction false} DigestAt(h: Chain, words: nat, k: nat, j: nat)
    requires k < words <= 8 && j < 8
    ensures |Digest(h, words)| == 8 * words
    ensures Digest(h, words)[8 * k + j] == (h[k] / Power256(7 - j) % 256) as Byte
  {
    hide Be, Power256;
    DigestLength(h, words - 1);
    if k == words - 1 {
      BeAt(h[k], 8, 7 - j);
    } else {
      DigestAt(h, words - 1, k, j);
    }
  }

  lemma {:induction false} DigestLength(h: Chain, words: nat)
    requires words <= 8
    ensures |Digest(h, words)| == 8 * words
  {
    if words > 0 {
      DigestLength(h, words - 1);
    }
  }

  class Context {
    const compress: Compression
    const buf: array<Byte>
    var ptr: nat
    var H: Chain
    var S: seq<Word>
    var T0: Word
    var T1: Word

    ghost predicate Valid()
      reads this
    {
      buf.Length == 128 && ptr < 128
    }

    ghost function State(): Core
      reads this
    {
      Core(compress, H, S, T0, T1)
    }

    ghost function View(): Stream<Core, Byte>
      requires Valid()
      reads this, buf
    {
      Stream(State(), buf[..ptr])
    }

    constructor (compress: Compression, iv: Chain, salt: seq<Word>)
      ensures Valid() && fresh(buf) && View() == Stream(Core(compress, iv, salt, 0, 0), [])
    {
      this.compress := compress;
      buf := new Byte[128];
      H, S, T0, T1, ptr := iv, salt, 0, 0, 0;
    }

    method Update(data: seq<Byte>)
      requires Valid()
      modifies this`ptr, this`H, this`T0, this`T1, buf
      ensures Valid() && View() == Fed(Step, 128, old(View()), data)
    {
      hide Step, Fed;
      ghost var x := View();
      if |data| < 128 - ptr {
        FedChunk(Step, 128, x, data);
        CopyTo(buf, ptr, data);
        ptr := ptr + |data|;
        return;
      }
      var rest := data;
      while |rest| > 0
        invariant Valid()
        invariant Fed(Step, 128, View(), rest) == Fed(Step, 128, x, data)
      {
        ghost var v := View();
        var clen := 128 - ptr;
        if clen > |rest| {
          clen := |rest|;
        }
        FedChunk(Step, 128, v, rest[..clen]);
        FedTwice(Step, 128, v, rest[..clen], rest[clen..]);
        assert rest[..clen] + rest[clen..] == rest;
        CopyTo(buf, ptr, rest[..clen]);
        ptr := ptr + clen;
        rest := rest[clen..];
        if ptr == 128 {
          CompressBlock();
          ptr := 0;
        }
      }
      FedNothing(Step, 128, View());
    }

    /** Count the bits of the full buffer, and compress it. */
    method CompressBlock()
      requires buf.Length == 128
      modifies this`H, this`T0, this`T1
      ensures State() == Step(old(State()), buf[..128])
    {
      T0 := (T0 + 1024) % W;
      if T0 < 1024 {
        T1 := (T1 + 1) % W;
      }
      H := compress(H, S, T0, T1, buf[..128]);
    }

    /** Set the counter back for the block that closes the message. */
    method SetCounterBack(bitLen: nat)
      requires bitLen < 1024
      modifies this`T0, this`T1
      ensures (T0, T1) == SetBack(old(T0), old(T1), bitLen)
    {
      if bitLen == 0 {
        T0 := W - 1024;
        T1 := W - 1;
      } else if T0 == 0 {
        T0 := W - 1024 + bitLen;
        T1 := (T1 - 1) % W;
      } else {
        T0 := (T0 - (1024 - bitLen)) % W;
      }
    }

    /** Feed what completes the block. */
    method Complete(u: seq<Byte>)
      requires Valid() && |u| == 128 - ptr
      modifies this`ptr, this`H, this`T0, this`T1, buf
      ensures Valid() && ptr == 0
      ensures State() == Step(old(State()), old(buf[..ptr]) + u)
    {
      hide Step, Fed;
      FedChunk(Step, 128, View(), u);
      Update(u);
    }

    /** Pad, append the length, and compress. */
    method End(ub: Byte, n: nat, flag: bool, length: seq<Byte>)
      requires Valid() && n <= 7 && |length| == 16
      modifies this`ptr, this`H, this`T0, this`T1, buf
      ensures Valid() && ptr == 0
      ensures State() == Ended(old(State()), old(buf[..ptr]), ub, n, flag, length)
    {
      hide Step, Padding, HeadByte, FlagByte, Ended, EndedTwo;
      var head := HeadByte(ub, n);
      PaddingLength(ptr, ub, n, flag);
      EndedInOne(State(), buf[..ptr], ub, n, flag, length);
      if 8 * ptr + n <= 894 {
        var u := OneBlock(head, ptr, flag);
        OneBlockPads(ub, n, ptr, flag);
        Complete(u + length);
      } else {
        TwoBlocksPad(ub, n, ptr, flag);
        CompleteTwo([head] + seq(127 - ptr, _ => 0), seq(111, _ => 0) + [FlagByte(flag)] + length);
      }
    }

    /** Feed what completes the block, and then a block that holds no message. */
    method CompleteTwo(u: seq<Byte>, v: seq<Byte>)
      requires Valid() && |u| == 128 - ptr && |v| == 128
      modifies this`ptr, this`H, this`T0, this`T1, buf
      ensures Valid() && ptr == 0
      ensures State() == EndedTwo(old(State()), old(buf[..ptr]), u, v)
    {
      hide Step;
      Complete(u);
      T0 := W - 1024;
      T1 := W - 1;
      assert buf[..0] + v == v;
      Complete(v);
    }

    /** Close the message with the n high bits of ub. */
    method Close(ub: Byte, n: nat, outWords: nat) returns (dst: seq<Byte>)
      requires Valid() && n <= 7 && outWords <= 8
      modifies this`ptr, this`H, this`T0, this`T1, buf
      ensures State() == Closed(old(State()), old(buf[..ptr]), ub, n, outWords == 8)
      ensures dst == Digest(H, outWords)
      ensures Valid() && ptr == 0
    {
      hide Ended, SetBack, Be, Digest;
      var bitLen := 8 * ptr + n;
      var tl := (T0 + bitLen) % W;
      var th := T1;
      SetCounterBack(bitLen);
      End(ub, n, outWords == 8, Be(th, 8) + Be(tl, 8));
      dst := Encode(outWords);
    }

    method Encode(outWords: nat) returns (dst: seq<Byte>)
      requires outWords <= 8
      ensures dst == Digest(H, outWords)
    {
      dst := [];
      for k := 0 to outWords
        invariant dst == Digest(H, k)
      {
        dst := dst + Be(H[k], 8);
      }
    }
  }

  /** The bytes from the first free one up to the length, when they fit. */
  method OneBlock(head: Byte, held: nat, flag: bool) returns (u: seq<Byte>)
    requires held <= 111
    ensures u == if held < 111 then [head] + seq(110 - held, _ => 0) + [FlagByte(flag)] else [head | FlagByte(flag)]
  {
    u := [head] + seq(111 - held, _ => 0);
    if flag {
      u := u[111 - held := u[111 - held] | 1];
    }
  }

  lemma OneBlockPads(ub: Byte, n: nat, held: nat, flag: bool)
    requires n <= 7 && 8 * held + n <= 894
    ensures Padding(held, ub, n, flag) ==
      if held < 111 then [HeadByte(ub, n)] + seq(110 - held, _ => 0) + [FlagByte(flag)]
      else [HeadByte(ub, n) | FlagByte(flag)]
  {
  }

  lemma TwoBlocksPad(ub: Byte, n: nat, held: nat, flag: bool)
    requires n <= 7 && held < 128 && 8 * held + n > 894
    ensures |Padding(held, ub, n, flag)| == 240 - held
    ensures Padding(held, ub, n, flag)[..128 - held] == [HeadByte(ub, n)] + seq(127 - held, _ => 0)
    ensures Padding(held, ub, n, flag)[128 - held..] == seq(111, _ => 0) + [FlagByte(flag)]
  {
    hide HeadByte, FlagByte;
  }
}
