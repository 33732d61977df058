/** Setting single bits and ranges of bits in a byte buffer. */
module BitMasks {
  import opened Words
  import opened BitStream

  function AllOnes(n: nat): (s: seq<bool>)
    ensures |s| == n && forall k :: 0 <= k < n ==> s[k]
  {
    seq(n, k => true)
  }

  method SetBit(bits: array<byte>, i: nat)
    requires i < 8 * bits.Length
    modifies bits
    ensures Bits(bits[..]) == old(Bits(bits[..]))[i := true]
  {
    OrMask(bits[..], i / 8, i % 8, 1);
    assert LowMask(1) == 1 by { assert Pow2(1) == 2; }
    ghost var was := bits[..];
    bits[i / 8] := OrByte(bits[i / 8], Shl(1, i % 8));
    assert bits[..] == was[i / 8 := OrByte(was[i / 8], Shl(1, i % 8))];
    assert Bits(bits[..]) == Blend(Bits(was), i, AllOnes(1));
  }

  /** Whether bit `i` is set: `data[i >> 3] & BIT_MASK[i & 7] != 0`. */
  predicate GetBit(data: seq<byte>, i: nat)
    requires i < 8 * |data|
    ensures GetBit(data, i) == Bits(data)[i]
  {
    GetBitIs(data, i);
    And(data[i / 8], Shl(1, i % 8)) != 0
  }

  lemma GetBitIs(data: seq<byte>, i: nat)
    requires i < 8 * |data|
    ensures And(data[i / 8], Shl(1, i % 8)) != 0 <==> Bits(data)[i]
  {
    hide Bit, And, Shl, Bits;
    var b, r := data[i / 8], i % 8;
    BitsAt(data, i);
    var w := And(b, Shl(1, r));
    ShlOne(r);
    forall k: nat | k < 64
      ensures Bit(w, k) == (k == r && Bit(b, r))
    {
      Pow2Bits(r, k);
    }
    ZeroHasNoBits();
    if !Bit(b, r) {
      WordsEqual(w, 0);
    } else {
      assert Bit(w, r);
    }
  }

  /** Or-ing `n` ones, moved up to bit `r`, into a byte sets its bits from `r` on. */
  lemma OrMask(bs: seq<byte>, i: nat, r: nat, n: nat)
    requires i < |bs| && r < 8 && n < 64
    ensures var m := if r + n <= 8 then n else 8 - r;
            Bits(bs[i := OrByte(bs[i], Shl(LowMask(n), r))]) == Blend(Bits(bs), 8 * i + r, AllOnes(m))
  {
    hide Bits, Bit, OrByte, Shl, LowMask, Ones;
    var w := Shl(LowMask(n), r);
    OrByteBlends(bs, i, w);
    var m := if r + n <= 8 then n else 8 - r;
    var d := Bits(bs);
    var lhs, rhs := Blend(d, 8 * i, ToBits(w, 8)), Blend(d, 8 * i + r, AllOnes(m));
    forall k | 0 <= k < |d|
      ensures lhs[k] == rhs[k]
    {
      if 8 * i <= k < 8 * i + 8 {
        assert lhs[k] == (d[k] || Bit(w, k - 8 * i));
      }
    }
  }

  lemma {:induction false} BitsOfOnes(n: nat)
    ensures Bits(seq(n, k => 255)) == AllOnes(8 * n)
  {
    if n != 0 {
      var bs: seq<byte> := seq(n, k => 255);
      assert bs[1..] == seq(n - 1, k => 255);
      BitsOfOnes(n - 1);
      forall i: nat | i < 8
        ensures Bit(255, i)
      {
        Pow2Is64();
        OnesBits(8, i);
      }
      assert ToBits(bs[0], 8) == AllOnes(8);
      assert Bits(bs) == AllOnes(8) + AllOnes(8 * (n - 1));
    }
  }

  lemma ReplaceOnes(d: seq<bool>, at: nat, n: nat)
    requires at + n <= |d|
    ensures Replace(d, at, AllOnes(n)) == Blend(d, at, AllOnes(n))
  {
  }

  lemma BlendOnes(d: seq<bool>, at: nat, m: nat, n: nat)
    requires at + m + n <= |d|
    ensures Blend(Blend(d, at, AllOnes(m)), at + m, AllOnes(n)) == Blend(d, at, AllOnes(m + n))
  {
    BlendTwice(d, at, AllOnes(m), AllOnes(n));
    assert AllOnes(m) + AllOnes(n) == AllOnes(m + n);
  }

  /**
    Sets `length` bits from `offset` on and no other: a partial first byte, whole bytes in
    bulk, a partial last byte.
   */
  method SetBits(bits: array<byte>, offset: nat, length: nat)
    requires offset + length <= 8 * bits.Length
    modifies bits
    ensures Bits(bits[..]) == Blend(old(Bits(bits[..])), offset, AllOnes(length))
  {
    hide Bits, Blend, Replace, AllOnes, OrByte, Shl, LowMask, Overwrite;
    ghost var d := Bits(bits[..]);
    ghost var done := 0;
    var byteI := offset / 8;
    var offsetR := offset % 8;
    var end := offset + length;
    var endByteI := end / 8;
    var endR := end % 8;
    BlendNone(d, offset);
    if offsetR != 0 {
      var numBits := if length <= 7 then length else 7;
      OrMask(bits[..], byteI, offsetR, numBits);
      ghost var was := bits[..];
      bits[byteI] := OrByte(bits[byteI], Shl(LowMask(numBits), offsetR));
      assert bits[..] == was[byteI := OrByte(was[byteI], Shl(LowMask(numBits), offsetR))];
      byteI := byteI + 1;
      done := if offsetR + numBits <= 8 then numBits else 8 - offsetR;
    }
    assert Bits(bits[..]) == Blend(d, offset, AllOnes(done));
    if byteI < endByteI {
      ghost var n := 8 * (endByteI - byteI);
      BitsOfOnes(endByteI - byteI);
      OverwriteReplaces(bits[..], byteI, seq(endByteI - byteI, k => 255));
      ReplaceOnes(Bits(bits[..]), 8 * byteI, n);
      BlendOnes(d, offset, done, n);
      Memcpy(seq(endByteI - byteI, k => 255), bits, byteI);
      byteI := endByteI;
      done := done + n;
    }
    assert Bits(bits[..]) == Blend(d, offset, AllOnes(done));
    if endR > 0 && byteI == endByteI {
      OrMask(bits[..], byteI, 0, endR);
      ghost var was := bits[..];
      ShlZero(LowMask(endR));
      bits[byteI] := OrByte(bits[byteI], LowMask(endR));
      assert bits[..] == was[byteI := OrByte(was[byteI], Shl(LowMask(endR), 0))];
      BlendOnes(d, offset, done, endR);
      done := done + endR;
    }
    assert done == length;
  }

  lemma BlendNone(d: seq<bool>, at: nat)
    requires at <= |d|
    ensures Blend(d, at, AllOnes(0)) == d
  {
  }

  lemma ShlZero(w: u64)
    ensures Shl(w, 0) == w
  {
    WordsEqual(Shl(w, 0), w);
  }

  /** The stream after `SetBit` on each of the `length` indices from `offset`. */
  function SetEach(d: seq<bool>, offset: nat, length: nat): (r: seq<bool>)
    requires offset + length <= |d|
    ensures |r| == |d|
  {
    if length == 0 then d else SetEach(d, offset, length - 1)[offset + length - 1 := true]
  }

  /** Setting a range is setting each of its bits. */
  lemma {:induction false} SetBitsIsSetEach(d: seq<bool>, offset: nat, length: nat)
    requires offset + length <= |d|
    ensures Blend(d, offset, AllOnes(length)) == SetEach(d, offset, length)
  {
    if length == 0 {
      BlendNone(d, offset);
    } else {
      SetBitsIsSetEach(d, offset, length - 1);
    }
  }
}
