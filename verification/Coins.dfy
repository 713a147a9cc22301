/** The coins of a transaction as an object (src/core.h, src/core.cpp): its
    methods change the outputs in place or write them to a stream. */
module Coins {
  import opened VarInt
  import opened Outputs
  import opened Binary
  import opened CoinRecords
  import opened Spending

  class CCoins {
    var fCoinBase: bool
    var vout: seq<TxOut>
    var nHeight: int
    var nVersion: int

    function View(): Record
      reads this
    {
      Record(fCoinBase, vout, nHeight, nVersion)
    }

    constructor ()
      ensures View() == Record(false, [], 0, 0)
    {
      fCoinBase, vout, nHeight, nVersion := false, [], 0, 0;
    }

    /** Remove spent outputs at the end. */
    method Cleanup()
      modifies this`vout
      ensures vout == Cleaned(old(vout))
    {
      while |vout| > 0 && IsNull(vout[|vout| - 1])
        invariant Cleaned(vout) == Cleaned(old(vout))
        decreases |vout|
      {
        vout := vout[..|vout| - 1];
      }
    }

    method IsPruned() returns (r: bool)
      ensures r <==> Pruned(vout)
    {
      for i := 0 to |vout|
        invariant forall k :: 0 <= k < i ==> IsNull(vout[k])
      {
        if !IsNull(vout[i]) {
          return false;
        }
      }
      r := true;
    }

    /** Whether mask byte b is zero. */
    method ZeroByte(b: nat) returns (fZero: bool)
      ensures fZero <==> MaskByte(vout, b) == 0
    {
      fZero := true;
      ghost var bits := MaskBits(vout, b);
      var i := 0;
      while i < 8 && 2 + b * 8 + i < |vout|
        invariant 0 <= i <= 8
        invariant fZero <==> forall k :: 0 <= k < i ==> !bits[k]
      {
        assert bits[i] == Available(vout, 2 + 8 * b + i);
        if !IsNull(vout[2 + b * 8 + i]) {
          fZero := false;
        }
        i := i + 1;
      }
      BitsPastEnd(vout, b, i);
      MaskByteZero(vout, b);
    }

    method CalcMaskSize() returns (nBytes: nat, nNonzeroBytes: nat)
      ensures nBytes == MaskSize(vout) && nNonzeroBytes == MaskCode(vout)
    {
      nBytes, nNonzeroBytes := 0, 0;
      var b := 0;
      while 2 + b * 8 < |vout|
        invariant 0 <= b <= Chunks(|vout|)
        invariant nBytes == Used(vout, b) && nNonzeroBytes == NonZeros(vout, b)
        decreases Chunks(|vout|) - b
      {
        var fZero := ZeroByte(b);
        if !fZero {
          nBytes := b + 1;
          nNonzeroBytes := nNonzeroBytes + 1;
        }
        b := b + 1;
      }
    }

    /** The header code, and how many mask bytes there are. */
    method Header() returns (nCode: int, nMaskSize: nat)
      requires !Pruned(vout)
      ensures nCode == HeaderCode(View()) && nMaskSize == MaskSize(vout)
    {
      var nMaskCode;
      nMaskSize, nMaskCode := CalcMaskSize();
      var fFirst := |vout| > 0 && !IsNull(vout[0]);
      var fSecond := |vout| > 1 && !IsNull(vout[1]);
      CodeIsPositive(vout);
      assert fFirst || fSecond || nMaskCode > 0;
      nCode := 8 * (nMaskCode - (if fFirst || fSecond then 0 else 1))
        + (if fCoinBase then 1 else 0) + (if fFirst then 2 else 0) + (if fSecond then 4 else 0);
    }

    method MaskByteAt(b: nat) returns (chAvail: nat)
      ensures chAvail == MaskByte(vout, b)
    {
      ghost var bits := MaskBits(vout, b);
      chAvail := 0;
      var i := 0;
      while i < 8 && 2 + b * 8 + i < |vout|
        invariant 0 <= i <= 8 && chAvail == NumberOf(bits[..i])
      {
        assert bits[..i + 1] == bits[..i] + [bits[i]];
        assert bits[i] == Available(vout, 2 + 8 * b + i);
        NumberOfSnoc(bits[..i], bits[i]);
        if !IsNull(vout[2 + b * 8 + i]) {
          chAvail := chAvail + Pow2(i);
        }
        i := i + 1;
      }
      BitsPastEnd(vout, b, i);
      TrailingZeros(bits, i);
    }

    method Serialize(codec: Codec, s: seq<Byte>) returns (r: seq<Byte>)
      requires !Pruned(vout)
      ensures r == s + Written(codec, View())
    {
      hide MaskByte, HeaderCode, Encoded, EncodedOut;
      var nCode, nMaskSize := Header();
      r := WriteVarInt(s, nVersion);
      r := WriteVarInt(r, nCode);
      ghost var r0 := r;
      for b := 0 to nMaskSize
        invariant r == r0 + Mask(vout, b)
      {
        var chAvail := MaskByteAt(b);
        assert Mask(vout, b + 1) == Mask(vout, b) + [MaskByte(vout, b)];
        r := r + [chAvail];
      }
      r := WriteOuts(codec, r);
      r := WriteVarInt(r, nHeight);
    }

    method WriteOuts(codec: Codec, s: seq<Byte>) returns (r: seq<Byte>)
      ensures r == s + Outs(codec, vout)
    {
      hide EncodedOut;
      r := s;
      assert vout[0..] == vout;
      for i := 0 to |vout|
        invariant r + Outs(codec, vout[i..]) == s + Outs(codec, vout)
      {
        assert vout[i..][1..] == vout[i + 1..];
        if !IsNull(vout[i]) {
          r := CompressorSerialize(codec, r, vout[i]);
        }
      }
    }

    method GetSerializeSize(codec: Codec) returns (nSize: nat)
      requires !Pruned(vout)
      ensures nSize == |Written(codec, View())|
    {
      hide MaskByte, HeaderCode, Encoded, EncodedOut;
      var nCode, nMaskSize := Header();
      nSize := GetSizeOfVarInt(nVersion);
      var k := GetSizeOfVarInt(nCode);
      nSize := nSize + k + nMaskSize;
      ghost var n0 := nSize;
      assert vout[0..] == vout;
      for i := 0 to |vout|
        invariant nSize + |Outs(codec, vout[i..])| == n0 + |Outs(codec, vout)|
      {
        assert vout[i..][1..] == vout[i + 1..];
        if !IsNull(vout[i]) {
          var n := CompressorSize(codec, vout[i]);
          nSize := nSize + n;
        }
      }
      k := GetSizeOfVarInt(nHeight);
      nSize := nSize + k;
    }

    /** The mask bytes up to the last that counts, as bits. */
    method ReadAvail(k: nat, s: seq<Byte>) returns (r: Option<(seq<bool>, seq<Byte>)>)
      ensures r.Some? <==> ReadMask(k, s).Some?
      ensures r.Some? ==> r.value == (AllBits(ReadMask(k, s).value.0), ReadMask(k, s).value.1)
    {
      var nMaskCode, vAvail, rest := k, [], s;
      ghost var done := [];
      JoinedStep([], k, s);
      while nMaskCode > 0
        invariant nMaskCode >= 0 && vAvail == AllBits(done)
        invariant ReadMask(k, s) == Joined(done, ReadMask(nMaskCode, rest))
        decreases |rest|
      {
        JoinedStep(done, nMaskCode, rest);
        if rest == [] {
          return None;
        }
        var chAvail := rest[0];
        rest := rest[1..];
        AllBitsSnoc(done, chAvail);
        var p, ch := 0, chAvail;
        ghost var v0 := vAvail;
        while p < 8
          invariant 0 <= p <= 8 && vAvail + BitsOf(ch, 8 - p) == v0 + BitsOf(chAvail, 8)
        {
          vAvail := vAvail + [ch % 2 == 1];
          ch := ch / 2;
          p := p + 1;
        }
        assert vAvail == v0 + BitsOf(chAvail, 8);
        done := done + [chAvail];
        if chAvail != 0 {
          nMaskCode := nMaskCode - 1;
        }
      }
      JoinedStep(done, 0, rest);
      r := Some((vAvail, rest));
    }

    method ReadVout(codec: Codec, vAvail: seq<bool>, s: seq<Byte>) returns (r: Option<seq<Byte>>)
      modifies this`vout
      ensures r.Some? <==> ReadOuts(codec, vAvail, s).Some?
      ensures r.Some? ==> (vout, r.value) == ReadOuts(codec, vAvail, s).value
    {
      hide DecodedOut;
      vout := seq(|vAvail|, _ => NULL);
      var rest := s;
      assert vAvail[0..] == vAvail;
      BehindStep(codec, [], vAvail, s);
      for i := 0 to |vAvail|
        invariant |vout| == |vAvail| && forall k :: i <= k < |vout| ==> vout[k] == NULL
        invariant ReadOuts(codec, vAvail, s) == Behind(vout[..i], ReadOuts(codec, vAvail[i..], rest))
      {
        ghost var before := vout[..i];
        assert vAvail[i..][0] == vAvail[i] && vAvail[i..][1..] == vAvail[i + 1..];
        BehindStep(codec, before, vAvail[i..], rest);
        if vAvail[i] {
          var o := CompressorUnserialize(codec, rest);
          if o.None? {
            return None;
          }
          vout := vout[i := o.value.0];
          rest := o.value.1;
        }
        assert vout[..i + 1] == before + [vout[i]];
      }
      assert vout[..|vAvail|] == vout;
      BehindStep(codec, vout, [], rest);
      r := Some(rest);
    }

    /** Nothing is promised of the coins when the stream ends too early. */
    method Unserialize(codec: Codec, s: seq<Byte>) returns (r: Option<seq<Byte>>)
      modifies this
      ensures r.Some? <==> Read(codec, s).Some?
      ensures r.Some? ==> (View(), r.value) == Read(codec, s).value
    {
      hide Decoded, ReadMask, ReadOuts, AsInt32, Cleaned;
      var v := ReadVarInt(W32, s);
      if v.None? {
        return None;
      }
      nVersion := AsInt32(v.value.0);
      v := ReadVarInt(W32, v.value.1);
      if v.None? {
        return None;
      }
      var nCode := v.value.0;
      fCoinBase := nCode % 2 == 1;
      var nMaskCode := nCode / 8 + (if nCode / 2 % 4 != 0 then 0 else 1);
      var a := ReadAvail(nMaskCode, v.value.1);
      if a.None? {
        return None;
      }
      var vAvail := [nCode / 2 % 2 == 1, nCode / 4 % 2 == 1] + a.value.0;
      r := ReadVout(codec, vAvail, a.value.1);
      if r.None? {
        return None;
      }
      v := ReadVarInt(W32, r.value);
      if v.None? {
        return None;
      }
      nHeight := AsInt32(v.value.0);
      r := Some(v.value.1);
      Cleanup();
    }

    /** Whether spending the output now would succeed. */
    method IsAvailable(nPos: nat) returns (r: bool)
      ensures r <==> Spent(View(), nPos).1.Some?
    {
      r := nPos < |vout| && !IsNull(vout[nPos]);
    }

    /** Mark output n spent and make the undo record, if it is there. */
    method Spend(n: nat) returns (undo: Option<InUndo>)
      modifies this`vout
      ensures (View(), undo) == Spent(old(View()), n)
    {
      if n >= |vout| || IsNull(vout[n]) {
        return None;
      }
      var u := InUndo(vout[n], false, 0, 0);
      vout := vout[n := NULL];
      Cleanup();
      if |vout| == 0 {
        u := u.(height := nHeight, coinBase := fCoinBase, version := nVersion);
      }
      undo := Some(u);
    }

    /** Put a spent output back. */
    method Restore(n: nat, undo: InUndo) returns (fClean: bool)
      modifies this
      ensures View() == Restored(old(View()), n, undo)
      ensures fClean <==> RestoresCleanly(old(View()), n, undo)
    {
      fClean := true;
      var pruned := IsPruned();
      if undo.height != 0 {
        if !pruned {
          fClean := false;
        }
        fCoinBase, nHeight, nVersion, vout := undo.coinBase, undo.height, undo.version, [];
      } else {
        if pruned {
          fClean := false;
        }
      }
      if n < |vout| && !IsNull(vout[n]) {
        fClean := false;
      }
      if |vout| < n + 1 {
        vout := vout + seq(n + 1 - |vout|, _ => NULL);
      }
      vout := vout[n := undo.out];
    }
  }
}
