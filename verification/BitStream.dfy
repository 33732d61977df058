/**
  Byte buffers as bit strings, least significant bit first, and the reference meaning of
  packed and byte-aligned values. `BitWriter` and `BitReader` are proved against this module.
 */
module BitStream {
  import opened Words

  /** The bits of a byte buffer, least significant bit of byte 0 first. */
  function Bits(bs: seq<byte>): (s: seq<bool>)
    ensures |s| == 8 * |bs|
  {
    if bs == [] then [] else ToBits(bs[0], 8) + Bits(bs[1..])
  }

  /** Bit `p` of the stream is bit `p % 8` of byte `p / 8`. */
  lemma {:induction false} BitsAt(bs: seq<byte>, p: nat)
    requires p < 8 * |bs|
    ensures Bits(bs)[p] == Bit(bs[p / 8], p % 8)
  {
    if 8 <= p {
      BitsAt(bs[1..], p - 8);
      assert (p - 8) / 8 == p / 8 - 1 && (p - 8) % 8 == p % 8;
    }
  }

  lemma {:induction false} BitsConcat(a: seq<byte>, b: seq<byte>)
    ensures Bits(a + b) == Bits(a) + Bits(b)
  {
    if a == [] {
      assert a + b == b;
    } else {
      assert (a + b)[1..] == a[1..] + b;
      BitsConcat(a[1..], b);
    }
  }

  lemma BitsSlice(bs: seq<byte>, i: nat, j: nat)
    requires i <= j <= |bs|
    ensures Bits(bs[i..j]) == Bits(bs)[8 * i..8 * j]
  {
    hide Bits;
    var a, b, c := bs[..i], bs[i..j], bs[j..];
    SplitInThree(bs, i, j);
    BitsInThree(a, b, c);
    MiddleSlice(Bits(a), Bits(b), Bits(c));
  }

  lemma SplitInThree<T>(s: seq<T>, i: nat, j: nat)
    requires i <= j <= |s|
    ensures s == s[..i] + s[i..j] + s[j..]
  {
  }

  lemma BitsInThree(a: seq<byte>, b: seq<byte>, c: seq<byte>)
    ensures Bits(a + b + c) == Bits(a) + Bits(b) + Bits(c)
  {
    hide Bits;
    BitsConcat(a + b, c);
    BitsConcat(a, b);
  }

  lemma MiddleSlice<T>(a: seq<T>, b: seq<T>, c: seq<T>)
    ensures (a + b + c)[|a|..|a| + |b|] == b
  {
  }

  lemma BitsInjective(a: seq<byte>, b: seq<byte>)
    requires Bits(a) == Bits(b)
    ensures a == b
  {
    assert 8 * |a| == 8 * |b|;
    forall k | 0 <= k < |a|
      ensures a[k] == b[k]
    {
      forall i: nat | i < 8
        ensures Bit(a[k], i) == Bit(b[k], i)
      {
        assert (8 * k + i) / 8 == k && (8 * k + i) % 8 == i;
        BitsAt(a, 8 * k + i);
        BitsAt(b, 8 * k + i);
      }
      Pow2Is64();
      BitsDetermine(a[k], b[k], 8);
    }
  }

  /** The little-endian number held by `bs`. */
  function LittleEndian(bs: seq<byte>): nat {
    if bs == [] then 0 else bs[0] + 256 * LittleEndian(bs[1..])
  }

  lemma {:induction false} LittleEndianBits(bs: seq<byte>)
    ensures LittleEndian(bs) == FromBits(Bits(bs))
  {
    if bs != [] {
      LittleEndianBits(bs[1..]);
      BitsConcat([bs[0]], bs[1..]);
      assert [bs[0]] + bs[1..] == bs;
      ByteBits(bs[0]);
      FromBitsConcat(ToBits(bs[0], 8), Bits(bs[1..]));
      FromToByte(bs[0]);
      Scale8(FromBits(Bits(bs[1..])));
    }
  }

  lemma ByteBits(b: byte)
    ensures Bits([b]) == ToBits(b, 8)
  {
    assert Bits([]) == [];
  }

  lemma FromToByte(b: byte)
    ensures FromBits(ToBits(b, 8)) == b
  {
    Pow2Is64();
    FromToBits(b, 8);
  }

  lemma Scale8(x: nat)
    ensures Scale(8, x) == 256 * x
  {
    ScaleIsMul(8, x);
    Pow2Is64();
  }

  /** The `n` low bytes of `v`, as `as_bytes` lays them out on a little-endian machine. */
  function LeBytes(v: nat, n: nat): (bs: seq<byte>)
    ensures |bs| == n
  {
    if n == 0 then [] else [v % 256] + LeBytes(v / 256, n - 1)
  }

  lemma SplitByte(v: nat)
    ensures forall i: nat :: Bit(v / 256, i) == Bit(v, i + 8)
    ensures forall i: nat :: Bit(v % 256, i) == (i < 8 && Bit(v, i))
  {
    var q, r := SplitBits(v, 8);
    assert v == r + 256 * q && r < 256 by {
      Scale8(q);
      Pow2Is64();
    }
    assert q == v / 256 && r == v % 256;
  }

  lemma {:induction false} BitsOfLeBytes(v: nat, n: nat)
    ensures Bits(LeBytes(v, n)) == ToBits(v, 8 * n)
  {
    if n != 0 {
      BitsOfLeBytes(v / 256, n - 1);
      BitsConcat([v % 256], LeBytes(v / 256, n - 1));
      ByteBits(v % 256);
      SplitByte(v);
      var high := ToBits(v / 256, 8 * (n - 1));
      assert ToBits(v, 8 * n) == ToBits(v % 256, 8) + high by {
        forall p: nat | p < 8 * n
          ensures Bit(v, p) == (ToBits(v % 256, 8) + high)[p]
        {
          if 8 <= p {
            assert Bit(v / 256, p - 8) == Bit(v, p - 8 + 8);
          }
        }
      }
    }
  }

  /** The first byte boundary at or after bit `p`. */
  function RoundUp(p: nat): (q: nat)
    ensures q % 8 == 0 && p <= q < p + 8
  {
    (p + 7) / 8 * 8
  }

  function Zeros(n: nat): (s: seq<bool>)
    ensures |s| == n && forall i :: 0 <= i < n ==> !s[i]
  {
    seq(n, i => false)
  }

  /** Zero bits up to the next byte boundary. */
  function Pad(s: seq<bool>): (t: seq<bool>)
    ensures |t| == RoundUp(|s|) && s <= t
  {
    s + Zeros(RoundUp(|s|) - |s|)
  }

  /** The value packed into the `n` bits from `p`. */
  function PackedAt(s: seq<bool>, p: nat, n: nat): nat
    requires p + n <= |s|
  {
    FromBits(s[p..p + n])
  }

  /** A word that agrees with the stream bit by bit holds the packed value. */
  lemma WordIsPacked(s: seq<bool>, p: nat, n: nat, w: u64)
    requires p + n <= |s| && n <= 64
    requires forall i: nat :: i < 64 ==> Bit(w, i) == (i < n && s[p + i])
    ensures w == PackedAt(s, p, n)
  {
    var t := s[p..p + n];
    assert FromBits(t) < TWO_TO_64 by {
      FromBitsBound(t);
      Pow2Monotonic(n, 64);
      Pow2Is64();
    }
    forall i: nat | i < 64
      ensures Bit(w, i) == Bit(FromBits(t), i)
    {
      BitFromBits(t, i);
    }
    WordsEqual(w, FromBits(t));
  }

  // ----- runs of packed values of one width

  /**
    What up to `count` successive reads of width `n` from `p` return: they stop at the first
    value that is not complete.
   */
  function PackedRun(s: seq<bool>, p: nat, n: nat, count: nat): (r: seq<nat>)
    requires p <= |s|
    ensures |r| <= count
    decreases count
  {
    if count == 0 || p + n > |s| then []
    else [PackedAt(s, p, n)] + PackedRun(s, p + n, n, count - 1)
  }

  /** A complete run starts with a complete value and goes on behind it. */
  lemma PackedRunStep(s: seq<bool>, p: nat, n: nat, count: nat)
    requires p <= |s| && count > 0 && |PackedRun(s, p, n, count)| == count
    ensures p + n <= |s| && |PackedRun(s, p + n, n, count - 1)| == count - 1
    ensures PackedRun(s, p, n, count) == [PackedAt(s, p, n)] + PackedRun(s, p + n, n, count - 1)
  {
  }

  /** The run is cut to the number of complete values. */
  lemma {:induction false} PackedRunLength(s: seq<bool>, p: nat, n: nat, count: nat)
    requires p <= |s|
    ensures n * count <= |s| - p ==> |PackedRun(s, p, n, count)| == count
    ensures n * count > |s| - p ==> n > 0 && |PackedRun(s, p, n, count)| == (|s| - p) / n
    decreases count
  {
    hide PackedAt;
    if count > 0 {
      MulStep(n, count);
      if p + n <= |s| {
        PackedRunLength(s, p + n, n, count - 1);
        if n > 0 {
          DivStep(|s| - p, n);
        }
      } else {
        DivSmall(|s| - p, n);
      }
    }
  }

  lemma MulStep(n: nat, k: nat)
    requires k > 0
    ensures n * k == n * (k - 1) + n && n * (k - 1) >= 0
    ensures k * n == (k - 1) * n + n
  {
  }

  lemma DivSmall(x: nat, n: nat)
    requires x < n
    ensures x / n == 0
  {
    DivUnique(x, n, 0, x);
  }

  lemma DivStep(x: nat, n: nat)
    requires 0 < n <= x
    ensures x / n == (x - n) / n + 1
  {
    var q, r := (x - n) / n, (x - n) % n;
    assert x == (q + 1) * n + r;
    DivUnique(x, n, q + 1, r);
  }

  lemma DivUnique(x: nat, n: nat, q: nat, r: nat)
    requires n > 0 && x == q * n + r && r < n
    ensures x / n == q
  {
    var d := x / n - q;
    assert x / n * n + x % n == x;
    assert d * n == r - x % n;
    NoSmallMultiple(d, n);
  }

  lemma NoSmallMultiple(d: int, n: nat)
    requires n > 0
    ensures d > 0 ==> d * n >= n
    ensures d < 0 ==> d * n <= -(n as int)
  {
  }

  /** A run long enough splits after `a` values, `a * n` bits further on. */
  lemma {:induction false} PackedRunSplit(s: seq<bool>, p: nat, n: nat, a: nat, b: nat, q: nat)
    requires p <= |s| && |PackedRun(s, p, n, a + b)| == a + b && q == p + a * n
    ensures q <= |s|
    ensures |PackedRun(s, p, n, a)| == a
    ensures PackedRun(s, p, n, a + b) == PackedRun(s, p, n, a) + PackedRun(s, q, n, b)
    decreases a
  {
    if a > 0 {
      MulStep(n, a);
      PackedRunStep(s, p, n, a + b);
      PackedRunSplit(s, p + n, n, a - 1, b, q);
      PackedRunJoin(s, p, n, a);
    }
  }

  lemma PackedRunJoin(s: seq<bool>, p: nat, n: nat, count: nat)
    requires count > 0 && p + n <= |s|
    ensures PackedRun(s, p, n, count) == [PackedAt(s, p, n)] + PackedRun(s, p + n, n, count - 1)
  {
  }

  /** A run read from a window of the stream is the run of the stream. */
  lemma {:induction false} PackedRunWindow(s: seq<bool>, i: nat, j: nat, p: nat, n: nat, count: nat)
    requires i + p <= j <= |s| && |PackedRun(s[i..j], p, n, count)| == count
    ensures PackedRun(s[i..j], p, n, count) == PackedRun(s, i + p, n, count)
    decreases count
  {
    if count > 0 {
      PackedRunStep(s[i..j], p, n, count);
      PackedRunWindow(s, i, j, p + n, n, count - 1);
      SliceOfSlice(s, i, j - i, p, p + n);
      PackedRunJoin(s, i + p, n, count);
    }
  }

  lemma SliceOfSlice<T>(s: seq<T>, p: nat, n: nat, i: nat, j: nat)
    requires p + n <= |s| && i <= j <= n
    ensures s[p..p + n][i..j] == s[p + i..p + j]
  {
    var lhs, rhs := s[p..p + n][i..j], s[p + i..p + j];
    assert forall k :: 0 <= k < |lhs| ==> lhs[k] == rhs[k];
  }

  // ----- writing into a byte buffer

  /** `b` with `src` written over it from `at` on. */
  function Overwrite(b: seq<byte>, at: nat, src: seq<byte>): (r: seq<byte>)
    requires at + |src| <= |b|
    ensures |r| == |b|
  {
    b[..at] + src + b[at + |src|..]
  }

  /** `memcpy`. */
  method Memcpy(src: seq<byte>, target: array<byte>, at: nat)
    requires at + |src| <= target.Length
    modifies target
    ensures target[..] == Overwrite(old(target[..]), at, src)
  {
    forall k | 0 <= k < |src| {
      target[at + k] := src[k];
    }
  }

  /** `d` with the bits `src` or-ed into it from `at` on. */
  function Blend(d: seq<bool>, at: nat, src: seq<bool>): (r: seq<bool>)
    requires at + |src| <= |d|
    ensures |r| == |d|
  {
    seq(|d|, k requires 0 <= k < |d| => d[k] || (at <= k < at + |src| && src[k - at]))
  }

  /** `d` with the bits from `at` on replaced by `src`. */
  function Replace(d: seq<bool>, at: nat, src: seq<bool>): (r: seq<bool>)
    requires at + |src| <= |d|
    ensures |r| == |d|
  {
    seq(|d|, k requires 0 <= k < |d| => if at <= k < at + |src| then src[k - at] else d[k])
  }

  lemma BlendNothing(d: seq<bool>, at: nat)
    requires at <= |d|
    ensures Blend(d, at, []) == d
  {
  }

  lemma BlendTwice(d: seq<bool>, at: nat, x: seq<bool>, y: seq<bool>)
    requires at + |x| + |y| <= |d|
    ensures Blend(Blend(d, at, x), at + |x|, y) == Blend(d, at, x + y)
  {
  }

  lemma OverwriteReplaces(b: seq<byte>, at: nat, src: seq<byte>)
    requires at + |src| <= |b|
    ensures Bits(Overwrite(b, at, src)) == Replace(Bits(b), 8 * at, Bits(src))
  {
    hide Bits, Replace;
    var x, y, z := b[..at], b[at..at + |src|], b[at + |src|..];
    assert b == (x + y) + z;
    BitsConcat(x + y, z);
    BitsConcat(x, y);
    BitsConcat(x + src, z);
    BitsConcat(x, src);
    ReplaceMiddle(Bits(x), Bits(y), Bits(z), Bits(src));
  }

  lemma ReplaceMiddle(x: seq<bool>, y: seq<bool>, z: seq<bool>, t: seq<bool>)
    requires |t| == |y|
    ensures Replace(x + y + z, |x|, t) == x + t + z
  {
  }

  /** `a |= w as u8`. */
  function OrByte(a: byte, w: u64): (r: byte)
    ensures forall i: nat :: Bit(r, i) == (i < 8 && (Bit(a, i) || Bit(w, i)))
  {
    SplitByte(Or(a, w));
    Or(a, w) % 256
  }

  /** Or-ing a word into byte `i` blends its eight low bits in. */
  lemma OrByteBlends(bs: seq<byte>, i: nat, w: u64)
    requires i < |bs|
    ensures Bits(bs[i := OrByte(bs[i], w)]) == Blend(Bits(bs), 8 * i, ToBits(w, 8))
  {
    hide Bits, OrByte, Bit;
    var bs' := bs[i := OrByte(bs[i], w)];
    forall p: nat | p < 8 * |bs|
      ensures Bits(bs')[p] == Blend(Bits(bs), 8 * i, ToBits(w, 8))[p]
    {
      BitsAt(bs', p);
      BitsAt(bs, p);
      if p / 8 == i {
        assert p - 8 * i == p % 8;
      }
    }
  }
}
