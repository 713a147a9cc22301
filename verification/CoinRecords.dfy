/** The unspent outputs of a transaction and their disk form (src/core.h,
    src/core.cpp): a bit for each output, in a mask without trailing zero
    bytes, and the outputs that are still there. */
module CoinRecords {
  import opened Arith
  import opened VarInt
  import opened Amounts
  import opened Outputs
  import opened Binary

  /** The outputs by position; positions past the end hold nothing. */
  function At(vout: seq<TxOut>, i: nat): TxOut {
    if i < |vout| then vout[i] else NULL
  }

  predicate Available(vout: seq<TxOut>, i: nat) {
    i < |vout| && !IsNull(vout[i])
  }

  /** Without spent outputs at the end. */
  function Cleaned(vout: seq<TxOut>): seq<TxOut> {
    if vout != [] && IsNull(vout[|vout| - 1]) then Cleaned(vout[..|vout| - 1]) else vout
  }

  predicate Pruned(vout: seq<TxOut>) {
    forall i :: 0 <= i < |vout| ==> IsNull(vout[i])
  }

  /** Spent outputs hold nothing. */
  predicate Canonical(vout: seq<TxOut>) {
    forall i :: 0 <= i < |vout| && IsNull(vout[i]) ==> vout[i] == NULL
  }

  lemma {:induction false} CleanedKeeps(vout: seq<TxOut>)
    requires Canonical(vout)
    ensures |Cleaned(vout)| <= |vout| && Cleaned(vout) == vout[..|Cleaned(vout)|]
    ensures forall i: nat :: At(Cleaned(vout), i) == At(vout, i)
    ensures Cleaned(vout) == [] || !IsNull(Cleaned(vout)[|Cleaned(vout)| - 1])
    ensures Cleaned(vout) == [] <==> Pruned(vout)
  {
    if vout != [] && IsNull(vout[|vout| - 1]) {
      CleanedKeeps(vout[..|vout| - 1]);
      forall i: nat ensures At(Cleaned(vout), i) == At(vout, i) {
        assert At(vout[..|vout| - 1], i) == At(vout, i);
      }
    } else if vout != [] {
      assert !IsNull(vout[|vout| - 1]);
    }
  }

  lemma CleanIsShort(v: seq<TxOut>, w: seq<TxOut>)
    requires (v == [] || !IsNull(v[|v| - 1])) && forall i: nat :: At(v, i) == At(w, i)
    ensures |v| <= |w|
  {
    if v != [] {
      assert At(v, |v| - 1) == At(w, |v| - 1);
    }
  }

  /** Cleaned lists that hold the same at every position are the same. */
  lemma CleanedUnique(v: seq<TxOut>, w: seq<TxOut>)
    requires Canonical(v) && Canonical(w) && forall i: nat :: At(v, i) == At(w, i)
    ensures Cleaned(v) == Cleaned(w)
  {
    CleanedKeeps(v);
    CleanedKeeps(w);
    var a, b := Cleaned(v), Cleaned(w);
    forall i: nat ensures At(a, i) == At(b, i) {
      assert At(a, i) == At(v, i) && At(b, i) == At(w, i);
    }
    CleanIsShort(a, b);
    CleanIsShort(b, a);
    forall i | 0 <= i < |a| ensures a[i] == b[i] {
      assert At(a, i) == At(b, i);
    }
  }

  // ---------------------------------------------------------------- the mask

  /** Byte b of the mask covers the outputs from 2 + 8b on. */
  function MaskBits(vout: seq<TxOut>, b: nat): seq<bool> {
    seq(8, i requires 0 <= i < 8 => Available(vout, 2 + 8 * b + i))
  }

  function MaskByte(vout: seq<TxOut>, b: nat): Byte {
    assert Pow2(8) == 256;
    BitsRoundTrip(MaskBits(vout, b));
    NumberOf(MaskBits(vout, b))
  }

  function Mask(vout: seq<TxOut>, n: nat): (r: seq<Byte>)
    ensures |r| == n
  {
    seq(n, b requires 0 <= b < n => MaskByte(vout, b))
  }

  /** How many mask bytes the outputs could need, how many they do need, and
      how many of those are not zero. */
  function Chunks(n: nat): nat { if n <= 2 then 0 else (n - 2 + 7) / 8 }

  function Used(vout: seq<TxOut>, n: nat): nat {
    if n == 0 then 0 else if MaskByte(vout, n - 1) != 0 then n else Used(vout, n - 1)
  }

  function NonZeros(vout: seq<TxOut>, n: nat): nat {
    if n == 0 then 0 else NonZeros(vout, n - 1) + (if MaskByte(vout, n - 1) != 0 then 1 else 0)
  }

  function MaskSize(vout: seq<TxOut>): nat { Used(vout, Chunks(|vout|)) }
  function MaskCode(vout: seq<TxOut>): nat { NonZeros(vout, Chunks(|vout|)) }

  lemma {:induction false} UsedIs(vout: seq<TxOut>, n: nat)
    ensures Used(vout, n) <= n && NonZeros(vout, n) == NonZeros(vout, Used(vout, n)) <= n
    ensures Used(vout, n) > 0 ==> MaskByte(vout, Used(vout, n) - 1) != 0
    ensures forall b :: Used(vout, n) <= b < n ==> MaskByte(vout, b) == 0
  {
    if n > 0 {
      UsedIs(vout, n - 1);
    }
  }

  lemma MaskByteZero(vout: seq<TxOut>, b: nat)
    ensures MaskByte(vout, b) == 0 <==> forall i :: 0 <= i < 8 ==> !MaskBits(vout, b)[i]
  {
    NumberOfZero(MaskBits(vout, b));
  }

  /** Bit i of byte b is set exactly if output 2 + 8b + i is there. */
  lemma MaskBitIs(vout: seq<TxOut>, n: nat, b: nat, i: nat)
    requires b < n && i < 8
    ensures BitsOf(Mask(vout, n)[b], 8)[i] <==> Available(vout, 2 + 8 * b + i)
  {
    BitsRoundTrip(MaskBits(vout, b));
  }

  /** No output is left past the mask. */
  lemma NothingPastMask(vout: seq<TxOut>, i: nat)
    requires i >= 2 + 8 * MaskSize(vout)
    ensures !Available(vout, i)
  {
    var b := (i - 2) / 8;
    UsedIs(vout, Chunks(|vout|));
    if i < |vout| {
      assert b < Chunks(|vout|);
      assert MaskByte(vout, b) == 0;
      MaskByteZero(vout, b);
      assert !MaskBits(vout, b)[(i - 2) % 8];
    }
  }

  /** There is something to write unless everything is spent. */
  lemma CodeIsPositive(vout: seq<TxOut>)
    requires !Pruned(vout)
    ensures Available(vout, 0) || Available(vout, 1) || MaskCode(vout) > 0
  {
    if MaskCode(vout) == 0 {
      UsedIs(vout, Chunks(|vout|));
      assert MaskSize(vout) > 0 ==> NonZeros(vout, MaskSize(vout)) > 0;
      var i :| 0 <= i < |vout| && !IsNull(vout[i]);
      if i >= 2 {
        NothingPastMask(vout, i);
      }
    }
  }

  // ---------------------------------------------------------------- the disk form

  datatype Record = Record(coinBase: bool, vout: seq<TxOut>, height: int, version: int)

  function HeaderCode(c: Record): int {
    var first, second := Available(c.vout, 0), Available(c.vout, 1);
    8 * (MaskCode(c.vout) - (if first || second then 0 else 1))
    + Bit(c.coinBase) + 2 * Bit(first) + 4 * Bit(second)
  }

  function Outs(codec: Codec, vout: seq<TxOut>): seq<Byte> {
    if vout == [] then []
    else (if IsNull(vout[0]) then [] else EncodedOut(codec, vout[0])) + Outs(codec, vout[1..])
  }

  function Written(codec: Codec, c: Record): seq<Byte> {
    Encoded(c.version) + (Encoded(HeaderCode(c)) + (Mask(c.vout, MaskSize(c.vout))
      + (Outs(codec, c.vout) + Encoded(c.height))))
  }

  /** Mask bytes up to the k-th one that is not zero. */
  function ReadMask(k: nat, s: seq<Byte>): Option<(seq<Byte>, seq<Byte>)>
    decreases |s|
  {
    if k == 0 then Some(([], s))
    else if s == [] then None
    else
      match ReadMask(if s[0] != 0 then k - 1 else k, s[1..])
      case None => None
      case Some((mask, rest)) => Some(([s[0]] + mask, rest))
  }

  function AllBits(mask: seq<Byte>): seq<bool> {
    if mask == [] then [] else AllBits(mask[..|mask| - 1]) + BitsOf(mask[|mask| - 1], 8)
  }

  function ReadOuts(codec: Codec, avail: seq<bool>, s: seq<Byte>): Option<(seq<TxOut>, seq<Byte>)> {
    if avail == [] then Some(([], s))
    else if !avail[0] then
      match ReadOuts(codec, avail[1..], s)
      case None => None
      case Some((outs, rest)) => Some(([NULL] + outs, rest))
    else
      match DecodedOut(codec, s)
      case None => None
      case Some((o, rest)) =>
        match ReadOuts(codec, avail[1..], rest)
        case None => None
        case Some((outs, rest)) => Some(([o] + outs, rest))
  }

  function CodeMask(code: nat): nat { code / 8 + (if code / 2 % 4 != 0 then 0 else 1) }

  function CodeBits(code: nat): seq<bool> { [code / 2 % 2 == 1, code / 4 % 2 == 1] }

  function Read(codec: Codec, s: seq<Byte>): Option<(Record, seq<Byte>)> {
    match Decoded(W32, s)
    case None => None
    case Some((version, s1)) =>
      match Decoded(W32, s1)
      case None => None
      case Some((code, s2)) =>
        match ReadMask(CodeMask(code), s2)
        case None => None
        case Some((mask, s3)) =>
          match ReadOuts(codec, CodeBits(code) + AllBits(mask), s3)
          case None => None
          case Some((outs, s4)) =>
            match Decoded(W32, s4)
            case None => None
            case Some((height, rest)) =>
              Some((Record(code % 2 == 1, Cleaned(outs), AsInt32(height), AsInt32(version)), rest))
  }

  // ---------------------------------------------------------------- round trip

  /** Reading stops behind the last byte of a mask whose last byte counts. */
  lemma {:induction false} MaskReads(vout: seq<TxOut>, from: nat, n: nat, rest: seq<Byte>)
    requires from <= n && (n > from ==> MaskByte(vout, n - 1) != 0)
    ensures NonZeros(vout, n) >= NonZeros(vout, from)
    ensures n > from ==> NonZeros(vout, n) > NonZeros(vout, from)
    ensures ReadMask(NonZeros(vout, n) - NonZeros(vout, from), Mask(vout, n)[from..] + rest) ==
      Some((Mask(vout, n)[from..], rest))
    decreases n - from
  {
    var s := Mask(vout, n)[from..] + rest;
    if from < n {
      MaskReads(vout, from + 1, n, rest);
      assert s[0] == MaskByte(vout, from) && s[1..] == Mask(vout, n)[from + 1..] + rest;
      assert Mask(vout, n)[from..] == [s[0]] + Mask(vout, n)[from + 1..];
    } else {
      assert s == rest;
    }
  }

  /** The availability of the first len outputs. */
  function Flags(vout: seq<TxOut>, len: nat): seq<bool> {
    seq(len, i requires 0 <= i < len => Available(vout, i))
  }

  lemma {:induction false} MaskFlags(vout: seq<TxOut>, n: nat)
    ensures [Available(vout, 0), Available(vout, 1)] + AllBits(Mask(vout, n)) == Flags(vout, 2 + 8 * n)
  {
    hide MaskBits, MaskByte;
    if n > 0 {
      MaskFlags(vout, n - 1);
      assert Mask(vout, n)[..n - 1] == Mask(vout, n - 1);
      MaskByteBits(vout, n - 1);
      FlagsStep(vout, n);
    }
  }

  lemma MaskByteBits(vout: seq<TxOut>, b: nat)
    ensures BitsOf(MaskByte(vout, b), 8) == MaskBits(vout, b)
  {
    BitsRoundTrip(MaskBits(vout, b));
  }

  lemma FlagsStep(vout: seq<TxOut>, n: nat)
    requires n > 0
    ensures Flags(vout, 2 + 8 * n) == Flags(vout, 2 + 8 * (n - 1)) + MaskBits(vout, n - 1)
  {
  }

  /** The first len outputs, those past the end holding nothing. */
  function Padded(vout: seq<TxOut>, len: nat): seq<TxOut> {
    seq(len, i requires 0 <= i < len => At(vout, i))
  }

  /** What comes back of an output that is there. */
  function KeptOut(o: TxOut): TxOut {
    if IsNull(o) then o else TxOut(ValueOf(PackedValue(o.value)), o.script)
  }

  function KeptOuts(vout: seq<TxOut>): (r: seq<TxOut>)
    ensures |r| == |vout|
  {
    seq(|vout|, i requires 0 <= i < |vout| => KeptOut(vout[i]))
  }

  ghost predicate AllFit(vout: seq<TxOut>) {
    forall i :: 0 <= i < |vout| && !IsNull(vout[i]) ==> Fits(vout[i])
  }

  ghost predicate AllCompressible(vout: seq<TxOut>) {
    forall i :: 0 <= i < |vout| && !IsNull(vout[i]) ==> Compressible(AsUint64(vout[i].value))
  }

  lemma OutsOfNothing(codec: Codec, vout: seq<TxOut>)
    requires Pruned(vout)
    ensures Outs(codec, vout) == []
  {
  }

  lemma {:induction false} OutsRead(codec: Codec, vout: seq<TxOut>, len: nat, rest: seq<Byte>)
    requires Faithful(codec) && Canonical(vout) && AllFit(vout)
    requires forall i :: len <= i < |vout| ==> IsNull(vout[i])
    ensures ReadOuts(codec, Flags(vout, len), Outs(codec, vout) + rest) == Some((Padded(KeptOuts(vout), len), rest))
    decreases len
  {
    hide EncodedOut, DecodedOut, Faithful, Fits, Storable, KeptOut;
    if len == 0 {
      OutsOfNothing(codec, vout);
      assert [] + rest == rest && Flags(vout, 0) == [] && Padded(KeptOuts(vout), 0) == [];
    } else {
      var tail := if vout == [] then [] else vout[1..];
      TailFlags(vout, len);
      OutsRead(codec, tail, len - 1, rest);
      OutsStep(codec, vout, rest);
      if Available(vout, 0) {
        OutRoundTripExactly(codec, vout[0], Outs(codec, tail) + rest);
      }
      KeptCases(At(vout, 0));
    }
  }

  lemma KeptCases(o: TxOut)
    ensures KeptOut(o) == if IsNull(o) then o else TxOut(ValueOf(PackedValue(o.value)), o.script)
  {
  }

  lemma OutsStep(codec: Codec, vout: seq<TxOut>, rest: seq<Byte>)
    ensures var tail := if vout == [] then [] else vout[1..];
      Outs(codec, vout) + rest ==
        if Available(vout, 0) then EncodedOut(codec, vout[0]) + (Outs(codec, tail) + rest)
        else Outs(codec, tail) + rest
  {
    hide EncodedOut;
  }

  lemma TailFlags(vout: seq<TxOut>, len: nat)
    requires len > 0
    ensures var tail := if vout == [] then [] else vout[1..];
      && Flags(vout, len)[1..] == Flags(tail, len - 1)
      && Padded(KeptOuts(vout), len) == [KeptOut(At(vout, 0))] + Padded(KeptOuts(tail), len - 1)
      && (Canonical(vout) ==> Canonical(tail))
  {
    hide KeptOut;
    KeptCases(NULL);
  }

  lemma PaddedCleans(vout: seq<TxOut>, len: nat)
    requires Canonical(vout) && forall i :: len <= i < |vout| ==> IsNull(vout[i])
    ensures Cleaned(Padded(vout, len)) == Cleaned(vout)
  {
    CleanedUnique(Padded(vout, len), vout);
  }

  lemma {:induction false} CleanedIsPrefix(vout: seq<TxOut>)
    ensures |Cleaned(vout)| <= |vout| && Cleaned(vout) == vout[..|Cleaned(vout)|]
  {
    if vout != [] && IsNull(vout[|vout| - 1]) {
      CleanedIsPrefix(vout[..|vout| - 1]);
    }
  }

  /** What is kept cleans to what was there exactly if every amount is compressible. */
  lemma KeptExactly(vout: seq<TxOut>, len: nat)
    requires Canonical(vout) && AllFit(vout) && forall i :: len <= i < |vout| ==> IsNull(vout[i])
    ensures Cleaned(Padded(KeptOuts(vout), len)) == Cleaned(vout) <==> AllCompressible(vout)
  {
    hide Compressible, KeptOut, ValueOf, PackedValue;
    forall i | 0 <= i < |vout|
      ensures KeptOut(vout[i]) == vout[i] <==> IsNull(vout[i]) || Compressible(AsUint64(vout[i].value))
    {
      KeptCases(vout[i]);
      if !IsNull(vout[i]) {
        ValueRoundTrip(vout[i].value);
      }
    }
    if AllCompressible(vout) {
      assert KeptOuts(vout) == vout;
      PaddedCleans(vout, len);
    } else {
      var i :| 0 <= i < |vout| && !IsNull(vout[i]) && !Compressible(AsUint64(vout[i].value));
      LostOutput(vout, len, i);
    }
  }

  lemma LostOutput(vout: seq<TxOut>, len: nat, i: nat)
    requires Canonical(vout) && i < |vout| && i < len && !IsNull(vout[i]) && KeptOut(vout[i]) != vout[i]
    ensures Cleaned(Padded(KeptOuts(vout), len)) != Cleaned(vout)
  {
    hide KeptOut;
    var p := Padded(KeptOuts(vout), len);
    CleanedIsPrefix(p);
    CleanedKeeps(vout);
    assert At(Cleaned(vout), i) == At(vout, i);
    assert i < |Cleaned(p)| ==> Cleaned(p)[i] == p[i] == KeptOut(vout[i]);
  }

  lemma CodeParts(c: Record)
    requires !Pruned(c.vout)
    ensures HeaderCode(c) >= 0 && CodeMask(HeaderCode(c)) == MaskCode(c.vout)
    ensures CodeBits(HeaderCode(c)) == [Available(c.vout, 0), Available(c.vout, 1)]
    ensures (HeaderCode(c) % 2 == 1) == c.coinBase
  {
    hide MaskCode;
    CodeIsPositive(c.vout);
    CodeArithmetic(MaskCode(c.vout), Bit(c.coinBase), Bit(Available(c.vout, 0)), Bit(Available(c.vout, 1)));
  }

  lemma CodeArithmetic(k: nat, cb: nat, first: nat, second: nat)
    requires cb <= 1 && first <= 1 && second <= 1 && first + second + k > 0
    ensures var code := 8 * (k - (if first + second > 0 then 0 else 1)) + cb + 2 * first + 4 * second;
      && code >= 0 && code % 2 == cb && code / 2 % 2 == first && code / 4 % 2 == second
      && CodeMask(code) == k
  {
    var m := k - (if first + second > 0 then 0 else 1);
    var code := 8 * m + cb + 2 * first + 4 * second;
    CodeDigits(code, m, cb, first, second);
  }

  /** The lowest bits of the code are the coinbase flag and whether outputs 0 and
      1 are there; above them is the number of mask bytes that are not zero, less
      one if both outputs are spent. */
  lemma HeaderBits(c: Record)
    requires !Pruned(c.vout)
    ensures var code, both := HeaderCode(c), !Available(c.vout, 0) && !Available(c.vout, 1);
      && code >= 0 && (code % 2 == 1 <==> c.coinBase)
      && (code / 2 % 2 == 1 <==> Available(c.vout, 0)) && (code / 4 % 2 == 1 <==> Available(c.vout, 1))
      && code / 8 + (if both then 1 else 0) == MaskCode(c.vout)
  {
    hide MaskCode;
    CodeIsPositive(c.vout);
    var first, second := Bit(Available(c.vout, 0)), Bit(Available(c.vout, 1));
    CodeDigits(HeaderCode(c), MaskCode(c.vout) - (if first + second > 0 then 0 else 1), Bit(c.coinBase), first, second);
  }

  lemma CodeDigits(code: nat, m: nat, cb: nat, first: nat, second: nat)
    requires cb <= 1 && first <= 1 && second <= 1 && code == 8 * m + cb + 2 * first + 4 * second
    ensures code % 2 == cb && code / 2 % 2 == first && code / 4 % 2 == second
    ensures code / 8 == m && code / 2 % 4 == first + 2 * second
  {
    var x, y := 4 * m + first + 2 * second, 2 * m + second;
    DivModUnique(code, 2, x, cb);
    DivModUnique(code, 4, y, cb + 2 * first);
    DivModUnique(code, 8, m, cb + 2 * first + 4 * second);
    DivModUnique(x, 2, y, first);
    DivModUnique(x, 4, m, first + 2 * second);
    DivModUnique(y, 2, m, second);
  }

  lemma CodeFits(c: Record)
    requires |c.vout| < 0x8000_0000
    ensures HeaderCode(c) < W32
  {
    UsedIs(c.vout, Chunks(|c.vout|));
  }

  lemma MaskReadsBack(vout: seq<TxOut>, rest: seq<Byte>)
    ensures ReadMask(MaskCode(vout), Mask(vout, MaskSize(vout)) + rest) == Some((Mask(vout, MaskSize(vout)), rest))
  {
    var n := MaskSize(vout);
    UsedIs(vout, Chunks(|vout|));
    MaskReads(vout, 0, n, rest);
    assert Mask(vout, n)[0..] == Mask(vout, n);
  }

  /** What serialization asks of the coins. */
  ghost predicate Serializable(c: Record) {
    && !Pruned(c.vout) && Canonical(c.vout) && AllFit(c.vout) && |c.vout| < 0x8000_0000
    && -0x8000_0000 <= c.version < 0x8000_0000 && -0x8000_0000 <= c.height < 0x8000_0000
  }

  /** Reading takes back exactly what was written, and gives the coins without
      spent outputs at the end, with what compression keeps of the amounts; of a
      negative version or height it keeps seven bits. */
  lemma ReadWritten(codec: Codec, c: Record, rest: seq<Byte>)
    requires Faithful(codec) && Serializable(c)
    ensures Read(codec, Written(codec, c) + rest) ==
      Some((Record(c.coinBase, Cleaned(Padded(KeptOuts(c.vout), 2 + 8 * MaskSize(c.vout))),
                   Kept(c.height), Kept(c.version)), rest))
  {
    hide Encoded, Decoded, ReadMask, ReadOuts, Outs, Mask, HeaderCode, AllBits, Faithful, Cleaned, AsInt32;
    hide KeptOuts, Padded;
    var code, n := HeaderCode(c), MaskSize(c.vout);
    CodeParts(c);
    CodeFits(c);
    var s4 := Encoded(c.height) + rest;
    var s3 := Outs(codec, c.vout) + s4;
    var s2 := Mask(c.vout, n) + s3;
    var s1 := Encoded(code) + s2;
    WrittenSplits(codec, c, rest);
    SignedReads(c.version, s1);
    VarIntRoundTrip(W32, code, s2);
    MaskReadsBack(c.vout, s3);
    MaskFlags(c.vout, n);
    OutsReadBack(codec, c.vout, s4);
    SignedReads(c.height, rest);
  }

  /** The coins come back exactly if version and height are not negative and the
      amounts compressible. */
  lemma RoundTrip(codec: Codec, c: Record, rest: seq<Byte>)
    requires Faithful(codec) && Serializable(c)
    ensures Read(codec, Written(codec, c) + rest) == Some((c.(vout := Cleaned(c.vout)), rest)) <==>
      c.version >= 0 && c.height >= 0 && AllCompressible(c.vout)
  {
    hide Read, Written, Faithful, KeptOuts, Padded, Cleaned, Fits, Compressible;
    ReadWritten(codec, c, rest);
    forall i | 2 + 8 * MaskSize(c.vout) <= i < |c.vout| ensures IsNull(c.vout[i]) {
      NothingPastMask(c.vout, i);
    }
    KeptExactly(c.vout, 2 + 8 * MaskSize(c.vout));
  }

  /** In particular coins that hold money and no oversized script come back. */
  lemma MoneyComesBack(codec: Codec, c: Record, rest: seq<Byte>)
    requires Faithful(codec) && !Pruned(c.vout) && Canonical(c.vout) && |c.vout| < 0x8000_0000
    requires forall i :: 0 <= i < |c.vout| && !IsNull(c.vout[i]) ==>
      0 <= c.vout[i].value <= MAX_MONEY && |c.vout[i].script| + SPECIAL_SCRIPTS < W32
    requires 0 <= c.version < 0x8000_0000 && 0 <= c.height < 0x8000_0000
    ensures Read(codec, Written(codec, c) + rest) == Some((c.(vout := Cleaned(c.vout)), rest))
  {
    hide Read, Written, Faithful, Fits, Compressible;
    forall i | 0 <= i < |c.vout| && !IsNull(c.vout[i]) ensures Storable(c.vout[i]) {
      MoneyIsStorable(c.vout[i]);
    }
    RoundTrip(codec, c, rest);
  }

  lemma WrittenSplits(codec: Codec, c: Record, rest: seq<Byte>)
    ensures Written(codec, c) + rest == Encoded(c.version) + (Encoded(HeaderCode(c)) + (Mask(c.vout, MaskSize(c.vout))
      + (Outs(codec, c.vout) + (Encoded(c.height) + rest))))
  {
    hide Encoded, HeaderCode, Mask, Outs;
  }

  lemma OutsReadBack(codec: Codec, vout: seq<TxOut>, rest: seq<Byte>)
    requires Faithful(codec) && Canonical(vout) && AllFit(vout)
    ensures ReadOuts(codec, Flags(vout, 2 + 8 * MaskSize(vout)), Outs(codec, vout) + rest) ==
      Some((Padded(KeptOuts(vout), 2 + 8 * MaskSize(vout)), rest))
  {
    var len := 2 + 8 * MaskSize(vout);
    forall i | len <= i < |vout| ensures IsNull(vout[i]) {
      NothingPastMask(vout, i);
    }
    OutsRead(codec, vout, len, rest);
  }

  // ---------------------------------------------------------------- for the loops of the code

  function Joined(done: seq<Byte>, r: Option<(seq<Byte>, seq<Byte>)>): Option<(seq<Byte>, seq<Byte>)> {
    match r
    case None => None
    case Some((mask, rest)) => Some((done + mask, rest))
  }

  function Behind(done: seq<TxOut>, r: Option<(seq<TxOut>, seq<Byte>)>): Option<(seq<TxOut>, seq<Byte>)> {
    match r
    case None => None
    case Some((outs, rest)) => Some((done + outs, rest))
  }

  lemma JoinedStep(done: seq<Byte>, k: nat, s: seq<Byte>)
    ensures Joined([], ReadMask(k, s)) == ReadMask(k, s)
    ensures Joined(done, ReadMask(0, s)) == Some((done, s))
    ensures k > 0 && s != [] ==>
      Joined(done, ReadMask(k, s)) == Joined(done + [s[0]], ReadMask(if s[0] != 0 then k - 1 else k, s[1..]))
  {
    assert done + [] == done;
    var r := ReadMask(k, s);
    if r.Some? {
      assert [] + r.value.0 == r.value.0;
    }
    if k > 0 && s != [] {
      var r := ReadMask(if s[0] != 0 then k - 1 else k, s[1..]);
      if r.Some? {
        assert done + ([s[0]] + r.value.0) == (done + [s[0]]) + r.value.0;
      }
    }
  }

  lemma BehindStep(codec: Codec, done: seq<TxOut>, avail: seq<bool>, s: seq<Byte>)
    ensures Behind([], ReadOuts(codec, avail, s)) == ReadOuts(codec, avail, s)
    ensures Behind(done, ReadOuts(codec, [], s)) == Some((done, s))
    ensures avail != [] && !avail[0] ==>
      Behind(done, ReadOuts(codec, avail, s)) == Behind(done + [NULL], ReadOuts(codec, avail[1..], s))
    ensures avail != [] && avail[0] ==>
      Behind(done, ReadOuts(codec, avail, s)) ==
        if DecodedOut(codec, s).None? then None
        else Behind(done + [DecodedOut(codec, s).value.0], ReadOuts(codec, avail[1..], DecodedOut(codec, s).value.1))
  {
    hide DecodedOut;
    assert done + [] == done;
    var r := ReadOuts(codec, avail, s);
    if r.Some? {
      assert [] + r.value.0 == r.value.0;
    }
    if avail != [] {
      BehindOne(codec, done, avail, s);
    }
  }

  lemma BehindOne(codec: Codec, done: seq<TxOut>, avail: seq<bool>, s: seq<Byte>)
    requires avail != []
    ensures !avail[0] ==>
      Behind(done, ReadOuts(codec, avail, s)) == Behind(done + [NULL], ReadOuts(codec, avail[1..], s))
    ensures avail[0] && DecodedOut(codec, s).Some? ==>
      var (o, rest) := DecodedOut(codec, s).value;
      Behind(done, ReadOuts(codec, avail, s)) == Behind(done + [o], ReadOuts(codec, avail[1..], rest))
  {
    hide DecodedOut;
    var o, rest := NULL, s;
    if avail[0] && DecodedOut(codec, s).Some? {
      o, rest := DecodedOut(codec, s).value.0, DecodedOut(codec, s).value.1;
    }
    var r := ReadOuts(codec, avail[1..], rest);
    if r.Some? {
      assert done + ([o] + r.value.0) == (done + [o]) + r.value.0;
    }
  }

  lemma AllBitsSnoc(mask: seq<Byte>, b: Byte)
    ensures AllBits(mask + [b]) == AllBits(mask) + BitsOf(b, 8)
  {
    assert (mask + [b])[..|mask|] == mask;
  }

  lemma BitsPastEnd(vout: seq<TxOut>, b: nat, i: nat)
    requires i == 8 || (i < 8 && 2 + 8 * b + i >= |vout|)
    ensures forall k :: i <= k < 8 ==> !MaskBits(vout, b)[k]
  {
    forall k | i <= k < 8 ensures !MaskBits(vout, b)[k] {
      assert !Available(vout, 2 + 8 * b + k);
    }
  }

  lemma {:induction false} TrailingZeros(bits: seq<bool>, i: nat)
    requires i <= |bits| && forall k :: i <= k < |bits| ==> !bits[k]
    ensures NumberOf(bits[..i]) == NumberOf(bits)
    decreases |bits| - i
  {
    if i == |bits| {
      assert bits[..i] == bits;
    } else {
      TrailingZeros(bits, i + 1);
      assert bits[..i + 1] == bits[..i] + [bits[i]];
      NumberOfSnoc(bits[..i], bits[i]);
    }
  }
}
