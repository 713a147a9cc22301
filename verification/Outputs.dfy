/** Transaction outputs and their compact form (src/core.h, src/script.h). */
module Outputs {
  import opened Arith
  import opened VarInt
  import opened Amounts

  type Script = seq<Byte>

  /** A value of -1 marks an output that is spent. */
  datatype TxOut = TxOut(value: int, script: Script)

  const NULL := TxOut(-1, [])

  predicate IsNull(o: TxOut) { o.value == -1 }

  // ---------------------------------------------------------------- scripts

  const SPECIAL_SCRIPTS: nat := 6

  /** Short forms of six kinds of script: `compress` gives one byte for the kind
      and the data, `decompress` the script for kind and data. */
  datatype Codec = Codec(compress: Script -> Option<seq<Byte>>, decompress: (nat, seq<Byte>) -> Option<Script>)

  function SpecialSize(kind: nat): nat {
    if kind == 0 || kind == 1 then 20 else if 2 <= kind <= 5 then 32 else 0
  }

  /** The short forms are what the reader expects, and stand for their script. */
  ghost predicate Faithful(codec: Codec) {
    forall s: Script :: codec.compress(s).Some? ==>
      var out := codec.compress(s).value;
      && out != [] && out[0] < SPECIAL_SCRIPTS && |out| == 1 + SpecialSize(out[0])
      && codec.decompress(out[0], out[1..]) == Some(s)
  }

  function EncodedScript(codec: Codec, script: Script): seq<Byte> {
    match codec.compress(script)
    case Some(out) => out
    case None => Encoded(|script| + SPECIAL_SCRIPTS) + script
  }

  function Take(n: nat, s: seq<Byte>): Option<(seq<Byte>, seq<Byte>)> {
    if |s| < n then None else Some((s[..n], s[n..]))
  }

  /** A script of a special kind that does not decompress is left empty. */
  function DecodedScript(codec: Codec, s: seq<Byte>): Option<(Script, seq<Byte>)> {
    match Decoded(W32, s)
    case None => None
    case Some((size, rest)) =>
      if size < SPECIAL_SCRIPTS then
        match Take(SpecialSize(size), rest)
        case None => None
        case Some((data, rest)) =>
          match codec.decompress(size, data)
          case Some(script) => Some((script, rest))
          case None => Some(([], rest))
      else Take(size - SPECIAL_SCRIPTS, rest)
  }

  lemma SpecialRoundTrip(codec: Codec, script: Script, rest: seq<Byte>)
    requires Faithful(codec) && codec.compress(script).Some?
    ensures DecodedScript(codec, EncodedScript(codec, script) + rest) == Some((script, rest))
  {
    var out := codec.compress(script).value;
    assert Encoded(out[0]) == [out[0]];
    VarIntRoundTrip(W32, out[0], out[1..] + rest);
    assert out + rest == [out[0]] + (out[1..] + rest);
    assert (out[1..] + rest)[..|out| - 1] == out[1..] && (out[1..] + rest)[|out| - 1..] == rest;
  }

  /** A script has a form of 21 bytes, one of 33, or its own bytes behind its
      length and six; the first number tells which. */
  lemma ScriptForms(codec: Codec, script: Script)
    requires Faithful(codec)
    ensures var s := EncodedScript(codec, script);
      if codec.compress(script).Some? then
        s != [] && s[0] <= 5 && |s| == if s[0] <= 1 then 21 else 33
      else
        s == Encoded(|script| + 6) + script
  {
    if codec.compress(script).Some? {
      var out := codec.compress(script).value;
      assert |out| == 1 + SpecialSize(out[0]);
    }
  }

  lemma ScriptRoundTrip(codec: Codec, script: Script, rest: seq<Byte>)
    requires Faithful(codec) && |script| + SPECIAL_SCRIPTS < W32
    ensures DecodedScript(codec, EncodedScript(codec, script) + rest) == Some((script, rest))
  {
    if codec.compress(script).Some? {
      SpecialRoundTrip(codec, script, rest);
    } else {
      var n := |script| + SPECIAL_SCRIPTS;
      VarIntRoundTrip(W32, n, script + rest);
      assert Encoded(n) + script + rest == Encoded(n) + (script + rest);
      assert (script + rest)[..|script|] == script && (script + rest)[|script|..] == rest;
    }
  }

  // ---------------------------------------------------------------- outputs

  /** The 64 bits of a signed number, and the signed number of 64 bits. */
  function AsUint64(v: int): nat { v % W64 }
  function AsInt64(x: nat): int { var y := x % W64; if y < 0x8000_0000_0000_0000 then y else y - W64 }

  function PackedValue(v: int): nat { Wrap(Compressed(AsUint64(v)), W64) }
  function ValueOf(x: nat): int { AsInt64(Wrap(Decompressed(x), W64)) }

  function EncodedOut(codec: Codec, o: TxOut): seq<Byte> {
    Encoded(PackedValue(o.value)) + EncodedScript(codec, o.script)
  }

  function DecodedOut(codec: Codec, s: seq<Byte>): Option<(TxOut, seq<Byte>)> {
    match Decoded(W64, s)
    case None => None
    case Some((x, rest)) =>
      match DecodedScript(codec, rest)
      case None => None
      case Some((script, rest)) => Some((TxOut(ValueOf(x), script), rest))
  }

  /** What the types hold: a signed value of 64 bits and a script with a length. */
  predicate Fits(o: TxOut) {
    -0x8000_0000_0000_0000 <= o.value < 0x8000_0000_0000_0000 && |o.script| + SPECIAL_SCRIPTS < W32
  }

  /** Outputs whose value survives compression. */
  predicate Storable(o: TxOut) { Fits(o) && Compressible(AsUint64(o.value)) }

  lemma MoneyIsStorable(o: TxOut)
    requires 0 <= o.value <= MAX_MONEY && |o.script| + SPECIAL_SCRIPTS < W32
    ensures Storable(o)
  {
  }

  /** A signed value comes back exactly if its 64 bits are compressible. */
  lemma ValueRoundTrip(v: int)
    requires -0x8000_0000_0000_0000 <= v < 0x8000_0000_0000_0000
    ensures ValueOf(PackedValue(v)) == v <==> Compressible(AsUint64(v))
  {
    hide Wrap, Compressed, Decompressed, Compressible;
    AmountRoundTripExactly(AsUint64(v));
    var n := Wrap(Decompressed(Wrap(Compressed(AsUint64(v)), W64)), W64);
    SameSigned(n, AsUint64(v));
    assert AsInt64(AsUint64(v)) == v;
  }

  lemma SameSigned(m: nat, n: nat)
    requires m < W64 && n < W64
    ensures AsInt64(m) == AsInt64(n) <==> m == n
  {
  }

  /** Reading an output back leaves the rest of the stream, and gives the output
      exactly if its value is compressible. */
  lemma OutRoundTripExactly(codec: Codec, o: TxOut, rest: seq<Byte>)
    requires Faithful(codec) && Fits(o)
    ensures DecodedOut(codec, EncodedOut(codec, o) + rest) ==
      Some((TxOut(ValueOf(PackedValue(o.value)), o.script), rest))
    ensures DecodedOut(codec, EncodedOut(codec, o) + rest) == Some((o, rest)) <==> Storable(o)
  {
    hide Encoded, Decoded, EncodedScript, DecodedScript, PackedValue, ValueOf, Faithful, Wrap, Compressible;
    var x, script := PackedValue(o.value), EncodedScript(codec, o.script);
    PackedFits(o.value);
    VarIntRoundTrip(W64, x, script + rest);
    assert EncodedOut(codec, o) + rest == Encoded(x) + (script + rest);
    ScriptRoundTrip(codec, o.script, rest);
    ValueRoundTrip(o.value);
  }

  lemma PackedFits(v: int)
    ensures PackedValue(v) < W64
  {
  }

  // ---------------------------------------------------------------- the code

  method CompressorSerialize(codec: Codec, os: seq<Byte>, o: TxOut) returns (r: seq<Byte>)
    ensures r == os + EncodedOut(codec, o)
  {
    var nVal := CompressAmount(AsUint64(o.value));
    r := WriteVarInt(os, nVal);
    match codec.compress(o.script) {
      case Some(out) => r := r + out;
      case None =>
        r := WriteVarInt(r, |o.script| + SPECIAL_SCRIPTS);
        r := r + o.script;
    }
  }

  method CompressorUnserialize(codec: Codec, s: seq<Byte>) returns (r: Option<(TxOut, seq<Byte>)>)
    ensures r == DecodedOut(codec, s)
  {
    hide Wrap, Decompressed, Decoded;
    var v := ReadVarInt(W64, s);
    if v.None? {
      return None;
    }
    DecodedBelow(W64, s);
    var nValue := DecompressAmount(v.value.0);
    var z := ReadVarInt(W32, v.value.1);
    if z.None? {
      return None;
    }
    var (nSize, rest) := z.value;
    if nSize < SPECIAL_SCRIPTS {
      var n := SpecialSize(nSize);
      if |rest| < n {
        return None;
      }
      var script := codec.decompress(nSize, rest[..n]);
      return Some((TxOut(AsInt64(nValue), if script.Some? then script.value else []), rest[n..]));
    }
    nSize := nSize - SPECIAL_SCRIPTS;
    if |rest| < nSize {
      return None;
    }
    r := Some((TxOut(AsInt64(nValue), rest[..nSize]), rest[nSize..]));
  }

  lemma DecodedBelow(m: nat, s: seq<Byte>)
    requires m > 0 && Decoded(m, s).Some?
    ensures Decoded(m, s).value.0 < m
  {
    ReadOnBelow(m, 0, s);
  }

  lemma {:induction false} ReadOnBelow(m: nat, acc: nat, s: seq<Byte>)
    requires m > 0 && ReadOn(m, acc, s).Some?
    ensures ReadOn(m, acc, s).value.0 < m
    decreases |s|
  {
    hide Wrap;
    var n := Wrap(acc * 128 + s[0] % 128, m);
    if s[0] >= 128 {
      ReadOnBelow(m, Wrap(n + 1, m), s[1..]);
    }
  }

  method CompressorSize(codec: Codec, o: TxOut) returns (n: nat)
    ensures n == |EncodedOut(codec, o)|
  {
    var nVal := CompressAmount(AsUint64(o.value));
    n := GetSizeOfVarInt(nVal);
    match codec.compress(o.script) {
      case Some(out) => n := n + |out|;
      case None =>
        var k := GetSizeOfVarInt(|o.script| + SPECIAL_SCRIPTS);
        n := n + k + |o.script|;
    }
  }
}
