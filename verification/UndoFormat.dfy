/** The disk form of an undo record (src/core.h). */
module UndoFormat {
  import opened Arith
  import opened VarInt
  import opened Amounts
  import opened Outputs
  import opened Spending

  function Code(u: InUndo): nat { (u.height * 2 + (if u.coinBase then 1 else 0)) % W32 }

  function Written(codec: Codec, u: InUndo): seq<Byte> {
    Encoded(Code(u)) + ((if u.height > 0 then Encoded(u.version) else []) + EncodedOut(codec, u.out))
  }

  /** Reading into a fresh record, whose version is 0. */
  function Read(codec: Codec, s: seq<Byte>): Option<(InUndo, seq<Byte>)> {
    match Decoded(W32, s)
    case None => None
    case Some((code, s1)) =>
      if code / 2 > 0 then
        match Decoded(W32, s1)
        case None => None
        case Some((version, s2)) => Finished(codec, code, AsInt32(version), s2)
      else Finished(codec, code, 0, s1)
  }

  function Finished(codec: Codec, code: nat, version: int, s: seq<Byte>): Option<(InUndo, seq<Byte>)> {
    match DecodedOut(codec, s)
    case None => None
    case Some((o, rest)) => Some((InUndo(o, code % 2 == 1, code / 2, version), rest))
  }

  /** A record of an unsigned height and a signed version of 32 bits each, and
      an output that its types hold. */
  predicate Holds(u: InUndo) {
    0 <= u.height < W32 && -0x8000_0000 <= u.version < 0x8000_0000 && Fits(u.out)
  }

  /** The record survives: a height that leaves room for the flag, a version that
      is not negative, and none at all without a height; a compressible amount. */
  predicate Survives(u: InUndo) {
    && u.height < 0x8000_0000 && (if u.height == 0 then u.version == 0 else u.version >= 0)
    && Compressible(AsUint64(u.out.value))
  }

  lemma ReadsCode(codec: Codec, u: InUndo, tail: seq<Byte>)
    requires Holds(u)
    ensures Decoded(W32, Encoded(Code(u)) + tail) == Some((Code(u), tail))
    ensures Code(u) / 2 == u.height <==> u.height < 0x8000_0000
    ensures (Code(u) % 2 == 1) == u.coinBase
  {
    hide Encoded, Decoded;
    CodeBelow(u);
    VarIntRoundTrip(W32, Code(u), tail);
    if u.height < 0x8000_0000 {
      assert Code(u) == u.height * 2 + (if u.coinBase then 1 else 0);
    } else {
      assert Code(u) == u.height * 2 + (if u.coinBase then 1 else 0) - W32;
    }
  }

  lemma CodeBelow(u: InUndo)
    ensures Code(u) < W32
  {
  }

  lemma Survivor(codec: Codec, u: InUndo, rest: seq<Byte>)
    requires Faithful(codec) && Holds(u) && u.height < 0x8000_0000
    ensures Read(codec, Written(codec, u) + rest) ==
      Some((u.(version := if u.height == 0 then 0 else Kept(u.version),
               out := TxOut(ValueOf(PackedValue(u.out.value)), u.out.script)), rest))
  {
    hide Encoded, Decoded, EncodedOut, DecodedOut, Faithful, Storable, Code, AsInt32, ValueOf, PackedValue;
    var tail := EncodedOut(codec, u.out) + rest;
    OutRoundTripExactly(codec, u.out, rest);
    if u.height > 0 {
      assert Written(codec, u) + rest == Encoded(Code(u)) + (Encoded(u.version) + tail);
      ReadsCode(codec, u, Encoded(u.version) + tail);
      SignedReads(u.version, tail);
    } else {
      assert Written(codec, u) + rest == Encoded(Code(u)) + tail;
      ReadsCode(codec, u, tail);
    }
  }

  lemma HighHeightIsLost(codec: Codec, u: InUndo, rest: seq<Byte>)
    requires Holds(u) && u.height >= 0x8000_0000
    ensures var r := Read(codec, Written(codec, u) + rest); r.Some? ==> r.value.0.height != u.height
  {
    hide Encoded, Decoded, EncodedOut, DecodedOut, Code;
    var tail := (Encoded(u.version) + EncodedOut(codec, u.out)) + rest;
    assert Written(codec, u) + rest == Encoded(Code(u)) + tail;
    ReadsCode(codec, u, tail);
  }

  /** The record comes back exactly if it is one that survives. */
  lemma UndoRoundTrip(codec: Codec, u: InUndo, rest: seq<Byte>)
    requires Faithful(codec) && Holds(u)
    ensures Read(codec, Written(codec, u) + rest) == Some((u, rest)) <==> Survives(u)
  {
    hide Read, Written, Faithful, Compressible, ValueOf, PackedValue;
    ValueRoundTrip(u.out.value);
    if u.height < 0x8000_0000 {
      Survivor(codec, u, rest);
    } else {
      HighHeightIsLost(codec, u, rest);
    }
  }

  method Serialize(codec: Codec, u: InUndo, s: seq<Byte>) returns (r: seq<Byte>)
    ensures r == s + Written(codec, u)
  {
    hide Encoded, EncodedOut;
    r := WriteVarInt(s, (u.height * 2 + (if u.coinBase then 1 else 0)) % W32);
    if u.height > 0 {
      r := WriteVarInt(r, u.version);
    }
    r := CompressorSerialize(codec, r, u.out);
  }

  method Unserialize(codec: Codec, s: seq<Byte>) returns (r: Option<(InUndo, seq<Byte>)>)
    ensures r == Read(codec, s)
  {
    hide Decoded, DecodedOut, AsInt32;
    var v := ReadVarInt(W32, s);
    if v.None? {
      return None;
    }
    var nCode := v.value.0;
    var nHeight := nCode / 2;
    var nVersion := 0;
    if nHeight > 0 {
      v := ReadVarInt(W32, v.value.1);
      if v.None? {
        return None;
      }
      nVersion := AsInt32(v.value.0);
    }
    var o := CompressorUnserialize(codec, v.value.1);
    if o.None? {
      return None;
    }
    r := Some((InUndo(o.value.0, nCode % 2 == 1, nHeight, nVersion), o.value.1));
  }
}
