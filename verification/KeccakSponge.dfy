/** The Keccak context of src/keccak.c: buffered input, padding and digest,
    against the sponge construction of section 4 of FIPS 202 over the plain
    permutation. */
module KeccakSponge {
  import opened Keccak
  import opened KeccakLanes
  import opened Streaming
  import opened Arith
  import opened ByteBits
  import Fips = Fips202

  // ---------------------------------------------------------------- bytes and lanes

  function Low(x: Lane): Byte { (x & 0xFF) as Byte }
  function Up(x: Lane): Lane { x >> 8 }
  function Join(b: Byte, x: Lane): Lane { (b as Lane) | (x << 8) }

  lemma JoinLowUp(x: Lane)
    ensures Join(Low(x), Up(x)) == x
  {
    assert (x & 0xFF) | ((x >> 8) << 8) == x;
    LowAsLane(x);
  }

  lemma LowAsLane(x: Lane)
    ensures Low(x) as Lane == x & 0xFF
  {
  }

  /** Bytes as a lane, the lowest first. */
  function Word(b: seq<Byte>): Lane {
    if b == [] then 0 else Join(b[0], Word(b[1..]))
  }

  /** The n lowest bytes of a lane, the lowest first. */
  function Bytes(x: Lane, n: nat): (r: seq<Byte>)
    ensures |r| == n
    decreases n
  {
    if n == 0 then [] else [Low(x)] + Bytes(Up(x), n - 1)
  }

  function UpBy(x: Lane, n: nat): Lane
    decreases n
  {
    if n == 0 then x else UpBy(Up(x), n - 1)
  }

  lemma {:induction false} WordOfBytes(x: Lane, n: nat)
    requires UpBy(x, n) == 0
    ensures Word(Bytes(x, n)) == x
    decreases n
  {
    hide Low, Up, Join;
    if n > 0 {
      WordOfBytes(Up(x), n - 1);
      JoinLowUp(x);
      assert Bytes(x, n)[1..] == Bytes(Up(x), n - 1);
    }
  }

  /** Decoding an encoded lane gives it back. */
  lemma LaneRoundTrip(x: Lane)
    ensures Word(Bytes(x, 8)) == x
  {
    UpEight(x);
    assert UpBy(x, 8) == UpBy(Up(Up(x)), 6) == UpBy(Up(Up(Up(Up(x)))), 4);
    WordOfBytes(x, 8);
  }

  lemma UpEight(x: Lane)
    ensures UpBy(Up(Up(Up(Up(x)))), 4) == 0
  {
    var u := Up(Up(Up(Up(x))));
    assert x >> 8 >> 8 >> 8 >> 8 >> 8 >> 8 >> 8 >> 8 == 0;
    assert Up(Up(Up(Up(u)))) == 0;
    assert UpBy(Up(Up(u)), 2) == UpBy(Up(Up(Up(Up(u)))), 0);
  }

  /** A block combined into the first lanes. */
  function XorIn(s: Lanes, block: seq<Byte>): Lanes {
    seq(25, i requires 0 <= i < 25 =>
      if 8 * i + 8 <= |block| then Xor(s[i], Word(block[8 * i..8 * i + 8])) else s[i])
  }

  function PlainStep(s: Lanes, block: seq<Byte>): Lanes { KeccakF(XorIn(s, block)) }
  function OptStep(s: Lanes, block: seq<Byte>): Lanes { OptRounds(XorIn(s, block), 0, 24) }

  /** The lanes as the code keeps them. */
  function Hidden(s: Lanes): Lanes { Masked(s, MASK) }

  lemma HiddenAt(s: Lanes, i: nat)
    requires i < 25
    ensures Hidden(s)[i] == if MASK(i) then Not(s[i]) else s[i]
  {
    assert Hidden(s)[i] == Flip(s[i], MASK(i));
  }

  lemma MaskedXorIn(s: Lanes, block: seq<Byte>)
    ensures XorIn(Hidden(s), block) == Hidden(XorIn(s, block))
  {
    hide Xor, Not, Flip, Word;
    forall i | 0 <= i < 25 ensures XorIn(Hidden(s), block)[i] == Hidden(XorIn(s, block))[i] {
      if 8 * i + 8 <= |block| {
        FlipXorPlain(s[i], Word(block[8 * i..8 * i + 8]), MASK(i));
      }
    }
  }

  lemma FlipXorPlain(x: Lane, y: Lane, b: bool)
    ensures Xor(Flip(x, b), y) == Flip(Xor(x, y), b)
  {
    hide Xor, Not;
    NotXor(x, y);
  }

  lemma MaskedStep(s: Lanes, block: seq<Byte>)
    ensures OptStep(Hidden(s), block) == Hidden(PlainStep(s, block))
  {
    hide XorIn, Masked;
    MaskedXorIn(s, block);
    MaskedRounds(XorIn(s, block), 0, 24);
  }

  // ---------------------------------------------------------------- padding

  /** The n high bits of ub, the lowest of them first. */
  function ExtraBits(ub: Byte, n: nat): seq<bool>
    requires n <= 7
  {
    seq(n, k requires 0 <= k < n => Test(ub, 8 - n + k))
  }

  /** The last byte of input: the extra bits and the 1 that follows them. */
  function EndByte(ub: Byte, n: nat): Byte
    requires n <= 7
  {
    ((0x100 | (ub as bv16)) >> (8 - n)) as Byte
  }

  lemma EndByteBits(ub: Byte, n: nat, k: nat)
    requires n <= 7 && k < 8
    ensures Test(EndByte(ub, n), k) == if k < n then Test(ub, 8 - n + k) else k == n
  {
    hide Test, EndByte;
    if k < n {
      EndByteExtra(ub, n, k);
    } else {
      EndByteStop(ub, n, k);
    }
  }

  lemma EndByteExtra(ub: Byte, n: nat, k: nat)
    requires k < n <= 7
    ensures Test(EndByte(ub, n), k) == Test(ub, 8 - n + k)
  {
    hide Test, EndByte;
    if n <= 5 {
      EndByteFew(ub, n, k);
    } else {
      EndByteMany(ub, n, k);
    }
  }

  lemma EndByteFew(ub: Byte, n: nat, k: nat)
    requires k < n <= 5
    ensures Test(EndByte(ub, n), k) == Test(ub, 8 - n + k)
  {
  }

  lemma EndByteMany(ub: Byte, n: nat, k: nat)
    requires k < n && 5 < n <= 7
    ensures Test(EndByte(ub, n), k) == Test(ub, 8 - n + k)
  {
  }

  lemma EndByteStop(ub: Byte, n: nat, k: nat)
    requires n <= k <= 7
    ensures Test(EndByte(ub, n), k) == (k == n)
  {
  }

  /** The bytes that close a message of which `held` bytes are in the buffer. */
  function Closing(held: nat, lim: nat, ub: Byte, n: nat): seq<Byte>
    requires held < lim && n <= 7
  {
    if held == lim - 1 then
      if n == 7 then [EndByte(ub, n)] + seq(lim - 1, _ => 0) + [0x80]
      else [EndByte(ub, n) | 0x80]
    else [EndByte(ub, n)] + seq(lim - held - 2, _ => 0) + [0x80]
  }

  lemma TopBit(b: Byte, k: nat)
    requires k < 8
    ensures Test(b | 0x80, k) == (Test(b, k) || k == 7)
    ensures Test(0x80, k) == (k == 7) && !Test(0, k)
  {
  }

  /** What closes the message, bit by bit. */
  function ClosingBits(z: nat, ub: Byte, n: nat): seq<bool>
    requires n <= 7
  {
    ExtraBits(ub, n) + ([true] + seq(z, _ => false) + [true])
  }

  lemma ClosingByteAt(held: nat, lim: nat, ub: Byte, n: nat, j: nat)
    requires held < lim && n <= 7 && j < |Closing(held, lim, ub, n)|
    ensures var last := j == |Closing(held, lim, ub, n)| - 1;
      Closing(held, lim, ub, n)[j] ==
        if j == 0 then if last then EndByte(ub, n) | 0x80 else EndByte(ub, n)
        else if last then 0x80 else 0
    ensures |Closing(held, lim, ub, n)| == 1 ==> n < 7
  {
    hide EndByte;
  }

  lemma ClosingBitsAre(z: nat, ub: Byte, n: nat, i: nat)
    requires n <= 7 && i < n + z + 2
    ensures ClosingBits(z, ub, n)[i] == if i < n then Test(ub, 8 - n + i) else i == n || i == n + z + 1
  {
    hide Test;
  }

  lemma ClosingBitsAt(held: nat, lim: nat, ub: Byte, n: nat, z: nat, i: nat)
    requires held < lim && n <= 7 && z == 8 * |Closing(held, lim, ub, n)| - n - 2 && i < n + z + 2
    ensures Bits(Test, Closing(held, lim, ub, n))[i] == ClosingBits(z, ub, n)[i]
  {
    hide Test, EndByte, Closing, ClosingBits;
    var c := Closing(held, lim, ub, n);
    ClosingBitsAre(z, ub, n, i);
    ClosingByteAt(held, lim, ub, n, i / 8);
    EndByteBits(ub, n, i % 8);
    TopBit(EndByte(ub, n), i % 8);
    assert Bits(Test, c)[i] == Test(c[i / 8], i % 8);
    assert i / 8 == |c| - 1 && i % 8 == 7 <==> i == n + z + 1;
  }

  /** The closing bytes are the extra bits and the multi-rate padding. */
  lemma ClosingIsPadding(done: nat, held: nat, lim: nat, ub: Byte, n: nat)
    requires held < lim && n <= 7 && done % lim == held
    ensures Bits(Test, Closing(held, lim, ub, n)) == ExtraBits(ub, n) + Fips.Pad101(8 * lim, 8 * done + n)
    ensures (done + |Closing(held, lim, ub, n)|) % lim == 0
  {
    var c := Closing(held, lim, ub, n);
    var z := 8 * |c| - n - 2;
    var q := done / lim;
    var blocks := if held == lim - 1 && n == 7 then q + 2 else q + 1;
    assert done == q * lim + held;
    assert done + |c| == blocks * lim;
    DivModUnique(done + |c|, lim, blocks, 0);
    PadCount(done, lim, n, z, blocks);
    forall i | 0 <= i < n + z + 2 ensures Bits(Test, c)[i] == ClosingBits(z, ub, n)[i] {
      ClosingBitsAt(held, lim, ub, n, z, i);
    }
    assert Bits(Test, c) == ClosingBits(z, ub, n);
  }

  lemma PadCount(done: nat, lim: nat, n: nat, z: nat, blocks: nat)
    requires 8 * done + n + 2 + z == 8 * (blocks * lim) && z < 8 * lim
    ensures (-(8 * done + n + 2)) % (8 * lim) == z
  {
    var d := 8 * lim;
    assert 8 * (blocks * lim) == blocks * d;
    var m := -(8 * done + n + 2);
    assert (-1 * blocks) * d == -(blocks * d);
    DivModUnique(m, d, -1 * blocks, z);
  }

  // ---------------------------------------------------------------- the digest

  function Zero(): Lanes { seq(25, _ => 0) }

  function Squeezed(s: Lanes, d: nat): seq<Byte>
    requires d <= 200
  {
    seq(d, i requires 0 <= i < d => Bytes(s[i / 8], 8)[i % 8])
  }

  /** The message with its padding, as bytes. */
  function Padded(message: seq<Byte>, lim: nat, ub: Byte, n: nat): seq<Byte>
    requires lim > 0 && n <= 7
  {
    message + Closing(|message| % lim, lim, ub, n)
  }

  /** The sponge over the plain permutation, with capacity twice the digest. */
  function Sponge(message: seq<Byte>, ub: Byte, n: nat, d: nat): seq<Byte>
    requires n <= 7 && 0 < d < 100
  {
    Squeezed(Absorb(PlainStep, 200 - 2 * d, Zero(), Padded(message, 200 - 2 * d, ub, n)), d)
  }

  /** What the padded message is, bit by bit. */
  lemma PaddedBits(message: seq<Byte>, lim: nat, ub: Byte, n: nat)
    requires lim > 0 && n <= 7
    ensures Bits(Test, Padded(message, lim, ub, n)) ==
      Bits(Test, message) + ExtraBits(ub, n) + Fips.Pad101(8 * lim, 8 * |message| + n)
    ensures |Padded(message, lim, ub, n)| % lim == 0
  {
    hide Bits, Closing, ExtraBits, Fips.Pad101;
    var held := |message| % lim;
    ClosingIsPadding(|message|, held, lim, ub, n);
    var c := Closing(held, lim, ub, n);
    BitsConcat(message, c);
  }

  lemma BitsConcat(a: seq<Byte>, b: seq<Byte>)
    ensures Bits(Test, a + b) == Bits(Test, a) + Bits(Test, b)
  {
    hide Test;
    forall i | 0 <= i < 8 * |a + b| ensures Bits(Test, a + b)[i] == (Bits(Test, a) + Bits(Test, b))[i] {
      if i >= 8 * |a| {
        assert i / 8 == (i - 8 * |a|) / 8 + |a| && i % 8 == (i - 8 * |a|) % 8;
      }
    }
  }

  /** What the context yields when it is closed. */
  function Closed(x: Stream<Lanes, Byte>, ub: Byte, n: nat, d: nat): seq<Byte>
    requires n <= 7 && 0 < d < 100 && |x.held| < 200 - 2 * d
  {
    Squeezed(Hidden(Fed(OptStep, 200 - 2 * d, x, Closing(|x.held|, 200 - 2 * d, ub, n)).state), d)
  }

  function Start(): Stream<Lanes, Byte> { Stream(Hidden(Zero()), []) }

  /** However the message is fed to the code, closing gives its digest. */
  lemma DigestIsSponge(chunks: seq<seq<Byte>>, ub: Byte, n: nat, d: nat)
    requires n <= 7 && 0 < d < 100
    ensures var x := FedAll(OptStep, 200 - 2 * d, Start(), chunks);
      |x.held| < 200 - 2 * d && Closed(x, ub, n, d) == Sponge(Concat(chunks), ub, n, d)
  {
    hide OptStep, PlainStep, Masked, Zero, Closing, Squeezed, Absorb;
    var lim, message := 200 - 2 * d, Concat(chunks);
    ChunksDoNotMatter(OptStep, lim, Start(), chunks);
    var x := Fed(OptStep, lim, Start(), message);
    assert [] + message == message;
    RestLength(lim, message);
    var c := Closing(|x.held|, lim, ub, n);
    FedTwice(OptStep, lim, Start(), message, c);
    assert [] + (message + c) == message + c;
    forall s, b: seq<Byte> | |b| == lim ensures OptStep(Hidden(s), b) == Hidden(PlainStep(s, b)) {
      MaskedStep(s, b);
    }
    AbsorbThrough(PlainStep, OptStep, Hidden, lim, Zero(), message + c);
    MaskedTwice(Absorb(PlainStep, lim, Zero(), message + c));
  }

  // ---------------------------------------------------------------- the context

  function NotLane(s: Lanes, i: nat): Lanes
    requires i < 25
  {
    s[i := Not(s[i])]
  }

  lemma SixComplemented(s: Lanes)
    ensures NotLane(NotLane(NotLane(NotLane(NotLane(NotLane(s, 1), 2), 8), 12), 17), 20) == Hidden(s)
  {
    hide Not;
    var t := NotLane(NotLane(NotLane(NotLane(NotLane(NotLane(s, 1), 2), 8), 12), 17), 20);
    forall i | 0 <= i < 25 ensures t[i] == Hidden(s)[i] {
      HiddenAt(s, i);
    }
  }

  lemma XorInDone(s: Lanes, t: Lanes, block: seq<Byte>)
    requires |block| % 8 == 0 && |block| <= 200
    requires forall k :: 0 <= k < |block| / 8 ==> t[k] == Xor(s[k], Word(block[8 * k..8 * k + 8]))
    requires forall k :: |block| / 8 <= k < 25 ==> t[k] == s[k]
    ensures t == XorIn(s, block)
  {
    hide Xor, Word;
  }

  predicate Rate(lim: nat) { lim == 144 || lim == 136 || lim == 104 || lim == 72 }

  class Context {
    const buf: array<Byte>
    const wide: array<Lane>
    var ptr: nat
    var lim: nat

    ghost predicate Valid()
      reads this
    {
      buf.Length == 144 && wide.Length == 25 && Rate(lim) && ptr < lim
    }

    ghost function View(): Stream<Lanes, Byte>
      requires Valid()
      reads this, buf, wide
    {
      Stream(wide[..], buf[..ptr])
    }

    constructor (outSize: nat)
      requires outSize == 224 || outSize == 256 || outSize == 384 || outSize == 512
      ensures Valid() && fresh(buf) && fresh(wide) && View() == Start() && lim == 200 - outSize / 4
    {
      buf := new Byte[144];
      wide := new Lane[25];
      ptr, lim := 0, 72;
      new;
      Init(outSize);
    }

    method Init(outSize: nat)
      requires buf.Length == 144 && wide.Length == 25
      requires outSize == 224 || outSize == 256 || outSize == 384 || outSize == 512
      modifies this, wide
      ensures Valid() && View() == Start() && lim == 200 - outSize / 4
    {
      for i := 0 to 25
        invariant forall k :: 0 <= k < i ==> wide[k] == 0
      {
        wide[i] := 0;
      }
      Complement();
      ptr := 0;
      lim := 200 - outSize / 4;
      assert wide[..] == Hidden(Zero());
    }

    /** Complement the six lanes. */
    method Complement()
      requires wide.Length == 25
      modifies wide
      ensures wide[..] == Hidden(old(wide[..]))
    {
      hide Not, Hidden;
      ghost var s: Lanes := wide[..];
      NotAt(1);
      NotAt(2);
      NotAt(8);
      NotAt(12);
      NotAt(17);
      NotAt(20);
      SixComplemented(s);
    }

    method NotAt(i: nat)
      requires wide.Length == 25 && i < 25
      modifies wide
      ensures wide[..] == NotLane(old(wide[..]), i)
    {
      wide[i] := Not(wide[i]);
    }

    method InputBuf(size: nat)
      requires buf.Length == 144 && wide.Length == 25 && Rate(size)
      modifies wide
      ensures wide[..] == XorIn(old(wide[..]), buf[..size])
    {
      hide Xor, Word, XorIn;
      ghost var s := wide[..];
      ghost var block := buf[..size];
      var j := 0;
      while j < size
        invariant 0 <= j <= size && j % 8 == 0
        invariant forall k :: 0 <= k < j / 8 ==> wide[k] == Xor(s[k], Word(block[8 * k..8 * k + 8]))
        invariant forall k :: j / 8 <= k < 25 ==> wide[k] == s[k]
      {
        assert buf[j..j + 8] == block[j..j + 8];
        wide[j / 8] := Xor(wide[j / 8], Word(buf[j..j + 8]));
        j := j + 8;
      }
      XorInDone(s, wide[..], block);
    }

    /** Take in more of the message. */
    method Core(data: seq<Byte>)
      requires Valid()
      modifies this`ptr, buf, wide
      ensures Valid() && View() == Fed(OptStep, lim, old(View()), data)
    {
      hide OptStep, Fed;
      ghost var x := View();
      if |data| < lim - ptr {
        FedChunk(OptStep, lim, x, data);
        CopyTo(buf, ptr, data);
        ptr := ptr + |data|;
        return;
      }
      var rest := data;
      while |rest| > 0
        invariant Valid()
        invariant Fed(OptStep, lim, View(), rest) == Fed(OptStep, lim, x, data)
      {
        ghost var v := View();
        var clen := lim - ptr;
        if clen > |rest| {
          clen := |rest|;
        }
        FedChunk(OptStep, lim, v, rest[..clen]);
        FedTwice(OptStep, lim, v, rest[..clen], rest[clen..]);
        assert rest[..clen] + rest[clen..] == rest;
        CopyTo(buf, ptr, rest[..clen]);
        ptr := ptr + clen;
        rest := rest[clen..];
        if ptr == lim {
          Compress();
          ptr := 0;
        }
      }
      FedNothing(OptStep, lim, View());
    }

    /** One full block through the permutation. */
    method Compress()
      requires buf.Length == 144 && wide.Length == 25 && Rate(lim) && ptr == lim
      modifies wide
      ensures wide[..] == OptStep(old(wide[..]), buf[..lim])
    {
      hide XorIn, OptRounds;
      InputBuf(lim);
      KeccakF1600(wide);
    }

    /** Close the message with the n high bits of ub, and start afresh. */
    method Close(ub: Byte, n: nat, d: nat) returns (dst: seq<Byte>)
      requires Valid() && n <= 7 && (d == 28 || d == 32 || d == 48 || d == 64) && lim == 200 - 2 * d
      modifies this, buf, wide
      ensures dst == Closed(old(View()), ub, n, d)
      ensures Valid() && View() == Start() && lim == old(lim)
    {
      hide Closing, OptStep, Fed, Masked;
      var tmp := Tail(ub, n);
      Core(tmp);
      Complement();
      dst := Encode(d);
      Init(8 * d);
    }

    /** The bytes that close the message. */
    method Tail(ub: Byte, n: nat) returns (tmp: seq<Byte>)
      requires Valid() && n <= 7
      ensures tmp == Closing(ptr, lim, ub, n)
    {
      hide EndByte;
      var eb := EndByte(ub, n);
      if ptr == lim - 1 {
        if n == 7 {
          tmp := [eb] + seq(lim - 1, _ => 0) + [0x80];
        } else {
          tmp := [eb | 0x80];
        }
      } else {
        var j := lim - ptr;
        tmp := [eb] + seq(j - 2, _ => 0) + [0x80];
      }
    }

    /** The first d bytes of the lanes. */
    method Encode(d: nat) returns (dst: seq<Byte>)
      requires wide.Length == 25 && d <= 64
      ensures dst == Squeezed(wide[..], d)
    {
      hide Bytes;
      var tmp := [];
      var j := 0;
      while j < d
        invariant 0 <= j < d + 8 && j % 8 == 0 && |tmp| == j
        invariant forall k :: 0 <= k < j ==> tmp[k] == Bytes(wide[k / 8], 8)[k % 8]
      {
        tmp := tmp + Bytes(wide[j / 8], 8);
        j := j + 8;
      }
      dst := tmp[..d];
    }
  }
}
