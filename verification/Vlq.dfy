/**
  Variable-length and zigzag integers: the sections "Base 128 Varints" and "Signed Integers"
  of the Protocol Buffers Encoding document. The word-level steps of the code are proved equal
  to this arithmetic, and decoding is proved to undo encoding.
 */
module Vlq {
  import opened Words
  import opened BitStream
  import opened Wrappers

  const MAX_VLQ_BYTE_LEN: nat := 10

  /** Seven bits a byte, least significant group first; the last byte has its top bit clear. */
  function VlqBytes(v: nat): (bs: seq<byte>)
    ensures |bs| >= 1
  {
    if v < 128 then [v] else [v % 128 + 128] + VlqBytes(v / 128)
  }

  /** The number that groups of seven bits stand for. */
  function Base128(bs: seq<byte>): nat {
    if bs == [] then 0 else bs[0] % 128 + 128 * Base128(bs[1..])
  }

  /** What the decoding loop accumulates over the bytes `bs`. */
  function VlqFold(bs: seq<byte>): u64 {
    if bs == [] then 0
    else
      var n := |bs| - 1;
      Or(VlqFold(bs[..n]), WrappingShl(And(bs[n], 0x7F), 7 * n))
  }

  /** Where the first group ends: the number of bytes up to a byte below 128. */
  function VlqLength(bs: seq<byte>): (r: Option<nat>)
    ensures r.Some? ==>
              && 1 <= r.value <= |bs| && bs[r.value - 1] < 128
              && forall i :: 0 <= i < r.value - 1 ==> bs[i] >= 128
    ensures r.None? ==> forall i :: 0 <= i < |bs| ==> bs[i] >= 128
  {
    if bs == [] then None
    else if bs[0] < 128 then Some(1)
    else match VlqLength(bs[1..])
      case None => None
      case Some(n) => Some(n + 1)
  }

  // ----- the word-level steps of the encoding loop

  lemma Split7(v: nat)
    ensures forall i: nat :: Bit(v / 128, i) == Bit(v, i + 7)
    ensures forall i: nat :: Bit(v % 128, i) == (i < 7 && Bit(v, i))
  {
    var q, r := SplitBits(v, 7);
    assert v == r + 128 * q && r < 128 by {
      ScaleIsMul(7, q);
      assert Pow2(7) == 128;
    }
    assert q == v / 128 && r == v % 128;
  }

  lemma GroupMask(i: nat)
    ensures Bit(0x7F, i) == (i < 7)
  {
    assert Pow2(7) == 128;
    OnesBits(7, i);
  }

  lemma ContinueMask(i: nat)
    ensures Bit(0x80, i) == (i == 7)
  {
    assert Pow2(7) == 128;
    Pow2Bits(7, i);
  }

  lemma RestMask(i: nat)
    ensures Bit(0xFFFF_FFFF_FFFF_FF80, i) == (7 <= i < 64)
  {
    var w := Word((j: nat) => 7 <= j);
    Pow2Is64();
    assert Pow2(7) == 128;
    OrIsAdd(Ones(7), w, 7);
    WordsEqual(Or(Ones(7), w), Ones(64));
  }

  /** `v & 0x7F` is the low group, and `| 0x80` marks a continuation. */
  lemma LowGroup(v: u64)
    ensures And(v, 0x7F) == v % 128
    ensures Or(And(v, 0x7F), 0x80) == v % 128 + 128
    ensures Shr(v, 7) == v / 128
  {
    Split7(v);
    forall i: nat | i < 64
      ensures Bit(And(v, 0x7F), i) == Bit(v % 128, i)
    {
      GroupMask(i);
    }
    WordsEqual(And(v, 0x7F), v % 128);
    WordsEqual(Shr(v, 7), v / 128);
    forall i: nat | i < 7
      ensures !Bit(0x80, i)
    {
      ContinueMask(i);
    }
    assert Pow2(7) == 128;
    OrIsAdd(v % 128, 0x80, 7);
  }

  /** The loop guard `v & 0xFFFFFFFFFFFFFF80 != 0` asks whether another group is needed. */
  lemma MoreGroups(v: u64)
    ensures And(v, 0xFFFF_FFFF_FFFF_FF80) != 0 <==> v >= 128
  {
    var w := And(v, 0xFFFF_FFFF_FFFF_FF80);
    assert forall i: nat :: Bit(w, i) == (7 <= i < 64 && Bit(v, i)) by {
      forall i: nat
        ensures Bit(w, i) == (7 <= i < 64 && Bit(v, i))
      {
        RestMask(i);
      }
    }
    assert Pow2(7) == 128;
    Pow2Is64();
    if w == 0 {
      ZeroHasNoBits();
      BelowFromBits(v, 7, 64);
    }
    if v < 128 {
      forall i: nat | i < 64
        ensures !Bit(w, i)
      {
        if 7 <= i {
          HighBitsZero(v, 7, i);
        }
      }
      ZeroHasNoBits();
      WordsEqual(w, 0);
    }
  }

  /** `byte & 0x80 == 0` asks whether a group ends here. */
  lemma LastGroup(b: byte)
    ensures And(b, 0x80) == 0 <==> b < 128
  {
    var w := And(b, 0x80);
    Pow2Is64();
    assert Pow2(7) == 128;
    ContinueMask(7);
    ZeroHasNoBits();
    if w == 0 {
      assert !Bit(w, 7);
      BelowFromBits(b, 7, 8);
    }
    if b < 128 {
      forall i: nat | i < 64
        ensures !Bit(w, i)
      {
        ContinueMask(i);
        HighBitsZero(b, 7, 7);
      }
      WordsEqual(w, 0);
    }
  }

  // ----- decoding undoes encoding

  /** Every `u64` takes at most ten bytes. */
  lemma {:induction false} VlqBytesLength(v: nat, k: nat)
    requires 1 <= k && v < Pow2(7 * k)
    ensures |VlqBytes(v)| <= k
  {
    if v >= 128 {
      assert Pow2(7) == 128;
      assert k >= 2;
      ScalePow2(7, 7 * (k - 1));
      ScaleIsMul(7, Pow2(7 * (k - 1)));
      VlqBytesLength(v / 128, k - 1);
    }
  }

  lemma VlqBytesAtMostTen(v: u64)
    ensures 1 <= |VlqBytes(v)| <= MAX_VLQ_BYTE_LEN
  {
    Pow2Is64();
    Pow2Monotonic(64, 70);
    VlqBytesLength(v, 10);
  }

  /** Encodings are self-delimiting: the group ends exactly where the encoding does. */
  lemma {:induction false} VlqSelfDelimiting(v: nat, rest: seq<byte>)
    ensures VlqLength(VlqBytes(v) + rest) == Some(|VlqBytes(v)|)
  {
    if v >= 128 {
      VlqSelfDelimiting(v / 128, rest);
      assert (VlqBytes(v) + rest)[1..] == VlqBytes(v / 128) + rest;
    }
  }

  lemma {:induction false} Base128OfVlqBytes(v: nat)
    ensures Base128(VlqBytes(v)) == v
  {
    if v >= 128 {
      Base128OfVlqBytes(v / 128);
      assert VlqBytes(v)[1..] == VlqBytes(v / 128);
    }
  }

  /** Bit `i` of the number is bit `i % 7` of its byte `i / 7`. */
  lemma {:induction false} Base128Bits(bs: seq<byte>, i: nat)
    ensures Bit(Base128(bs), i) == (i < 7 * |bs| && Bit(bs[i / 7], i % 7))
  {
    if bs == [] {
      BitZero(i);
    } else {
      hide Bit;
      var v := Base128(bs);
      Split7(v);
      Split7(bs[0]);
      assert v % 128 == bs[0] % 128 && v / 128 == Base128(bs[1..]);
      if i < 7 {
        assert Bit(v, i) == Bit(v % 128, i);
      } else {
        assert Bit(v, i - 7 + 7) == Bit(v / 128, i - 7);
        Base128Bits(bs[1..], i - 7);
        assert (i - 7) / 7 == i / 7 - 1 && (i - 7) % 7 == i % 7;
      }
    }
  }

  /** Up to ten bytes, the loop places every group without overlap or wrap-around. */
  lemma {:induction false} VlqFoldBits(bs: seq<byte>, i: nat)
    requires |bs| <= MAX_VLQ_BYTE_LEN && i < 64
    ensures Bit(VlqFold(bs), i) == (i < 7 * |bs| && Bit(bs[i / 7], i % 7))
  {
    if bs == [] {
      BitZero(i);
    } else {
      hide Bit, Shl, And, Or, VlqFold;
      var n := |bs| - 1;
      VlqFoldBits(bs[..n], i);
      var g: u64 := And(bs[n], 0x7F);
      FoldLast(bs);
      if 7 * n <= i {
        GroupMask(i - 7 * n);
        SevenAt(i, n);
      } else {
        assert i / 7 < n;
      }
    }
  }

  lemma {:induction false} FoldLast(bs: seq<byte>)
    requires 0 < |bs| <= MAX_VLQ_BYTE_LEN
    ensures var n := |bs| - 1;
            7 * n < 64 && VlqFold(bs) == Or(VlqFold(bs[..n]), Shl(And(bs[n], 0x7F), 7 * n))
  {
    hide Or, And, Shl, Bit;
    var n := |bs| - 1;
    assert 7 * n % 64 == 7 * n;
  }

  lemma SevenAt(i: nat, n: nat)
    requires 7 * n <= i
    ensures i < 7 * n + 7 <==> i / 7 == n
    ensures i < 7 * n + 7 ==> i % 7 == i - 7 * n
  {
  }

  /** A group of at most ten bytes decodes to its base-128 number modulo 2^64. */
  lemma VlqFoldIsBase128(bs: seq<byte>)
    requires |bs| <= MAX_VLQ_BYTE_LEN
    ensures VlqFold(bs) == Base128(bs) % TWO_TO_64
  {
    var r := LowWord(Base128(bs));
    forall i: nat | i < 64
      ensures Bit(VlqFold(bs), i) == Bit(r, i)
    {
      VlqFoldBits(bs, i);
      Base128Bits(bs, i);
    }
    WordsEqual(VlqFold(bs), r);
  }

  /** A group of `m` bytes whose only payload is the low bit of its eleventh byte. */
  function Overlong(m: nat): (bs: seq<byte>)
    requires m > MAX_VLQ_BYTE_LEN
    ensures |bs| == m
  {
    seq(m, i => (if i == m - 1 then 0 else 128) + if i == MAX_VLQ_BYTE_LEN then 1 else 0)
  }

  /** The eleventh byte of an overlong group wraps around to bit 6, and later bytes leave it. */
  lemma {:induction false} EleventhByte(m: nat, n: nat)
    requires MAX_VLQ_BYTE_LEN < n <= m
    ensures Bit(VlqFold(Overlong(m)[..n]), 6)
    decreases n
  {
    var bs := Overlong(m)[..n];
    FoldSplit(bs);
    if n == MAX_VLQ_BYTE_LEN + 1 {
      EleventhBit(bs[n - 1]);
    } else {
      EleventhByte(m, n - 1);
      assert bs[..n - 1] == Overlong(m)[..n - 1];
    }
  }

  lemma {:induction false} FoldSplit(bs: seq<byte>)
    requires bs != []
    ensures var n := |bs| - 1;
            VlqFold(bs) == Or(VlqFold(bs[..n]), WrappingShl(And(bs[n], 0x7F), 7 * n))
  {
    hide Or, And, WrappingShl, Bit;
  }

  lemma EleventhBit(b: byte)
    requires b == 1 || b == 129
    ensures Bit(WrappingShl(And(b, 0x7F), 7 * MAX_VLQ_BYTE_LEN), 6)
  {
    GroupMask(0);
    assert Bit(b, 0);
    assert WrappingShl(And(b, 0x7F), 7 * MAX_VLQ_BYTE_LEN) == Shl(And(b, 0x7F), 6);
  }

  /**
    Groups of a given length all decode to their base-128 number modulo 2^64 exactly when the
    length is at most ten.
   */
  lemma VlqFoldIsBase128ExactlyWhen(m: nat)
    ensures (forall bs: seq<byte> :: VlqLength(bs) == Some(m) && |bs| == m ==> VlqFold(bs) == Base128(bs) % TWO_TO_64)
            <==> m <= MAX_VLQ_BYTE_LEN
  {
    hide Bit, VlqFold, Base128, VlqLength;
    if m <= MAX_VLQ_BYTE_LEN {
      forall bs: seq<byte> | VlqLength(bs) == Some(m) && |bs| == m
        ensures VlqFold(bs) == Base128(bs) % TWO_TO_64
      {
        VlqFoldIsBase128(bs);
      }
    } else {
      var bs := Overlong(m);
      OverlongIsGroup(m);
      EleventhByte(m, m);
      assert bs[..m] == bs;
      var r := LowWord(Base128(bs));
      Base128Bits(bs, 6);
      ContinueMask(6);
    }
  }

  lemma OverlongIsGroup(m: nat)
    requires m > MAX_VLQ_BYTE_LEN
    ensures VlqLength(Overlong(m)) == Some(m)
  {
    var bs := Overlong(m);
    LengthAfterContinuations(bs[..m - 1], bs[m - 1..]);
    assert bs[..m - 1] + bs[m - 1..] == bs;
  }

  lemma {:induction false} LengthAfterContinuations(a: seq<byte>, b: seq<byte>)
    requires forall i :: 0 <= i < |a| ==> a[i] >= 128
    ensures VlqLength(a + b) == match VlqLength(b) case None => None case Some(n) => Some(|a| + n)
  {
    if a == [] {
      assert a + b == b;
    } else {
      assert (a + b)[1..] == a[1..] + b;
      LengthAfterContinuations(a[1..], b);
    }
  }

  /** Decoding the encoding of a word gives the word back. */
  lemma VlqRoundTrip(v: u64, rest: seq<byte>)
    ensures VlqLength(VlqBytes(v) + rest) == Some(|VlqBytes(v)|)
    ensures |VlqBytes(v)| <= MAX_VLQ_BYTE_LEN
    ensures VlqFold(VlqBytes(v)) == v
  {
    hide VlqBytes, VlqLength, VlqFold, Base128;
    VlqSelfDelimiting(v, rest);
    VlqBytesAtMostTen(v);
    VlqFoldIsBase128(VlqBytes(v));
    Base128OfVlqBytes(v);
  }

  // ----- zigzag

  /** `((v << 1) ^ (v >> 63)) as u64`; the second shift copies the sign. */
  function ZigzagEncode(v: i64): u64 {
    Xor(Shl(Pattern(v), 1), if v < 0 then TWO_TO_64 - 1 else 0)
  }

  /** `(u >> 1) as i64 ^ -((u & 1) as i64)`. */
  function ZigzagDecode(u: u64): i64 {
    Signed(Xor(Shr(u, 1), if u % 2 == 1 then TWO_TO_64 - 1 else 0))
  }

  function Complement(s: seq<bool>): (t: seq<bool>)
    ensures |t| == |s|
  {
    seq(|s|, i requires 0 <= i < |s| => !s[i])
  }

  lemma {:induction false} FromBitsComplement(s: seq<bool>)
    ensures FromBits(Complement(s)) == Pow2(|s|) - 1 - FromBits(s)
  {
    if s != [] {
      FromBitsComplement(s[1..]);
      assert Complement(s)[1..] == Complement(s[1..]);
    }
  }

  /** Exclusive or with all ones complements; with zero it changes nothing. */
  lemma XorMask(a: u64)
    ensures Xor(a, TWO_TO_64 - 1) == TWO_TO_64 - 1 - a
    ensures Xor(a, 0) == a
  {
    ZeroHasNoBits();
    WordsEqual(Xor(a, 0), a);
    var s := Complement(ToBits(a, 64));
    assert FromBits(s) == TWO_TO_64 - 1 - a by {
      Pow2Is64();
      FromToBits(a, 64);
      FromBitsComplement(ToBits(a, 64));
    }
    assert Ones(64) == TWO_TO_64 - 1 by { Pow2Is64(); }
    forall i: nat | i < 64
      ensures Bit(Xor(a, TWO_TO_64 - 1), i) == Bit(FromBits(s), i)
    {
      BitFromBits(s, i);
    }
    WordsEqual(Xor(a, TWO_TO_64 - 1), FromBits(s));
  }

  lemma DoubleHalve(a: u64)
    ensures Shl(a, 1) == (2 * a) % TWO_TO_64
    ensures Shr(a, 1) == a / 2
  {
    var q := ShlIsScale(a, 1);
    var r := ShrIsDiv(a, 1);
    assert Scale(64, q) == TWO_TO_64 * q by {
      Pow2Is64();
      ScaleIsMul(64, q);
    }
    ScaleIsMul(1, a);
    ScaleIsMul(1, Shr(a, 1));
    assert Pow2(1) == 2;
  }

  /** Non-negative numbers go to the even words, negative ones to the odd words. */
  lemma ZigzagEncodeIs(v: i64)
    ensures ZigzagEncode(v) == if v < 0 then -2 * v - 1 else 2 * v
  {
    hide Shl, Xor;
    var p := Pattern(v);
    DoubleHalve(p);
    XorMask(Shl(p, 1));
  }

  lemma ZigzagDecodeIs(u: u64)
    ensures ZigzagDecode(u) == if u % 2 == 1 then -(u / 2) - 1 else u / 2
  {
    DoubleHalve(u);
    XorMask(Shr(u, 1));
  }

  /** Zigzag coding is a bijection between signed and unsigned words. */
  lemma ZigzagRoundTrip(v: i64, u: u64)
    ensures ZigzagDecode(ZigzagEncode(v)) == v
    ensures ZigzagEncode(ZigzagDecode(u)) == u
  {
    hide ZigzagEncode, ZigzagDecode;
    ZigzagEncodeIs(v);
    ZigzagDecodeIs(ZigzagEncode(v));
    ZigzagDecodeIs(u);
    ZigzagEncodeIs(ZigzagDecode(u));
  }
}
