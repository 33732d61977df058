/** The bit unpacking reader: a byte buffer read through a cached 64-bit word. */
module BitReading {
  import opened Words
  import opened BitStream
  import opened Wrappers
  import opened Vlq
  import opened BitPacking

  function Min(a: nat, b: nat): nat {
    if a <= b then a else b
  }

  // ----- loading the cached word

  /** The 64 stream bits from `p`, zero past the end. */
  ghost function WordAt(s: seq<bool>, p: nat): (w: u64)
    ensures forall i: nat :: Bit(w, i) == (i < 64 && p + i < |s| && s[p + i])
  {
    Word((i: nat) => p + i < |s| && s[p + i])
  }

  /** `read_u64`: eight bytes, little endian. */
  function ReadU64(src: seq<byte>): u64
    requires |src| >= 8
  {
    LittleEndianIsWord(src[..8]);
    LittleEndian(src[..8])
  }

  /** `read_num_bytes_u64`: from a zero-filled copy, or by masking a full load. */
  function ReadNumBytesU64(size: nat, src: seq<byte>): u64
    requires size <= |src| && size <= 8
  {
    if |src| < 8 then
      ReadU64(src[..size] + seq(8 - size, i => 0))
    else
      TrailingBits(ReadU64(src), size * 8)
  }

  lemma LittleEndianIsWord(bs: seq<byte>)
    requires |bs| == 8
    ensures LittleEndian(bs) < TWO_TO_64
  {
    LittleEndianBits(bs);
    FromBitsBound(Bits(bs));
    Pow2Is64();
  }

  /** The word holds the 64 stream bits of the first eight bytes. */
  lemma ReadU64Bits(src: seq<byte>, i: nat)
    requires |src| >= 8
    ensures Bit(ReadU64(src), i) == (i < 64 && Bits(src[..8])[i])
  {
    LittleEndianBits(src[..8]);
    BitFromBits(Bits(src[..8]), i);
  }

  lemma ReadNumBytesBits(size: nat, src: seq<byte>, i: nat)
    requires size <= |src| && size <= 8
    ensures Bit(ReadNumBytesU64(size, src), i) == (i < 8 * size && Bits(src[..size])[i])
  {
    if |src| < 8 {
      var pad: seq<byte> := seq(8 - size, i => 0);
      var copy := src[..size] + pad;
      ReadU64Bits(copy, i);
      assert copy[..8] == copy;
      BitsConcat(src[..size], pad);
      if 8 * size <= i < 64 {
        BitsAt(pad, i - 8 * size);
        BitZero((i - 8 * size) % 8);
      }
    } else {
      ReadU64Bits(src, i);
      BitsSlice(src[..8], 0, size);
      assert src[..8][0..size] == src[..size];
    }
  }

  /** Both load forms give the zero-padded word at `byteOffset`. */
  lemma LoadIsWordAt(buf: seq<byte>, total: nat, byteOffset: nat)
    requires byteOffset <= total <= |buf|
    ensures Load(buf, total, byteOffset) == WordAt(Bits(buf[..total]), 8 * byteOffset)
  {
    hide Bit, Bits, Load, WordAt;
    var w := WordAt(Bits(buf[..total]), 8 * byteOffset);
    forall i: nat | i < 64
      ensures Bit(Load(buf, total, byteOffset), i) == Bit(w, i)
    {
      LoadBit(buf, total, byteOffset, i);
    }
    WordsEqual(Load(buf, total, byteOffset), w);
  }

  lemma LoadBit(buf: seq<byte>, total: nat, byteOffset: nat, i: nat)
    requires byteOffset <= total <= |buf| && i < 64
    ensures var q := 8 * byteOffset + i;
            Bit(Load(buf, total, byteOffset), i) == (q < 8 * total && Bits(buf[..total])[q])
  {
    hide Bit, Bits, ReadNumBytesU64, ReadU64;
    var n := Min(8, total - byteOffset);
    if i < 8 * n {
      LoadedAt(buf, total, byteOffset, n, i);
    }
    if total - byteOffset < 8 {
      ReadNumBytesBits(n, buf[byteOffset..], i);
    } else {
      ReadU64Bits(buf[byteOffset..], i);
    }
  }

  lemma LoadedAt(buf: seq<byte>, total: nat, byteOffset: nat, n: nat, i: nat)
    requires byteOffset + n <= total <= |buf| && i < 8 * n
    ensures Bits(buf[byteOffset..][..n])[i] == Bits(buf[..total])[8 * byteOffset + i]
  {
    hide Bits;
    assert buf[byteOffset..][..n] == buf[..total][byteOffset..byteOffset + n];
    BitsSlice(buf[..total], byteOffset, byteOffset + n);
  }

  function Load(buf: seq<byte>, total: nat, byteOffset: nat): u64
    requires byteOffset <= total <= |buf|
  {
    if 8 > total - byteOffset then ReadNumBytesU64(total - byteOffset, buf[byteOffset..])
    else ReadU64(buf[byteOffset..])
  }

  // ----- extracting a value from the cached word and the next one

  /** `get_u64_value` on words: `n` bits from bit `k` of `w`, continued in `next`. */
  function Extract(w: u64, next: u64, k: nat, n: nat): u64
    requires k < 64 && n <= 64
  {
    if n == 0 then 0
    else if k + n < 64 then And(Shr(w, k), HighMask(n))
    else And(Or(WrappingShl(next, n - (k + n - 64)), Shr(w, k)), HighMask(n))
  }

  lemma ExtractSteps(w: u64, next: u64, k: nat, n: nat)
    requires k < 64 && n <= 64
    ensures n == 0 ==> Extract(w, next, k, n) == 0
    ensures 0 < n && k + n < 64 ==> Extract(w, next, k, n) == And(Shr(w, k), HighMask(n))
    ensures 64 <= k + n ==>
              Extract(w, next, k, n) == And(Or(WrappingShl(next, n - (k + n - 64)), Shr(w, k)), HighMask(n))
    ensures (k + n) % 64 == if k + n < 64 then k + n else k + n - 64
  {
  }

  lemma ExtractIsPacked(s: seq<bool>, p: nat, k: nat, n: nat)
    requires k < 64 && n <= 64 && p + k + n <= |s|
    requires n < 64 || k > 0
    ensures Extract(WordAt(s, p), WordAt(s, p + 64), k, n) == PackedAt(s, p + k, n)
  {
    hide Bit, And, Or, Shl, Shr, HighMask, Ones, WordAt, PackedAt, Extract;
    var x := Extract(WordAt(s, p), WordAt(s, p + 64), k, n);
    forall i: nat | i < 64
      ensures Bit(x, i) == (i < n && s[p + k + i])
    {
      ExtractBit(s, p, k, n, i);
    }
    WordIsPacked(s, p + k, n, x);
  }

  lemma ExtractBit(s: seq<bool>, p: nat, k: nat, n: nat, i: nat)
    requires k < 64 && n <= 64 && p + k + n <= |s| && i < 64
    requires n < 64 || k > 0
    ensures Bit(Extract(WordAt(s, p), WordAt(s, p + 64), k, n), i) == (i < n && s[p + k + i])
  {
    hide Bit, And, Or, Shl, Shr, WrappingShl, HighMask, Ones, WordAt, Extract;
    ExtractSteps(WordAt(s, p), WordAt(s, p + 64), k, n);
    if n == 0 {
      BitZero(i);
    } else if k + n >= 64 {
      assert n - (k + n - 64) == 64 - k;
      MergedBit(s, p, k, i);
    }
  }

  /** Two neighbouring words, shifted and merged, are the word in between. */
  lemma MergedBit(s: seq<bool>, p: nat, k: nat, i: nat)
    requires 0 < k < 64 && i < 64
    ensures Bit(Or(WrappingShl(WordAt(s, p + 64), 64 - k), Shr(WordAt(s, p), k)), i)
            == (p + k + i < |s| && s[p + k + i])
  {
    hide Bit, Or, Shl, Shr, WordAt;
    var next := WordAt(s, p + 64);
    assert WrappingShl(next, 64 - k) == Shl(next, 64 - k);
    if 64 - k <= i {
      assert Bit(Shl(next, 64 - k), i) == Bit(next, i - (64 - k));
    }
  }

  /** A full-width read at bit 0 merges in the next word, because the shift by 64 wraps to 0. */
  lemma WideExtract(w: u64, next: u64)
    ensures Extract(w, next, 0, 64) == Or(next, w)
  {
    hide Bit, And, Or, Shl, Shr, HighMask, Ones;
    assert WrappingShl(next, 64) == Shl(next, 0);
    WordHasNoHighBits(w);
    WordHasNoHighBits(next);
    WordsEqual(Extract(w, next, 0, 64), Or(next, w));
  }

  /**
    Reading `n` bits at bit `k` is right for every two words exactly when it is not a read of
    width 64 at bit 0, although widths up to 64 are admitted.
   */
  lemma ExtractIsRightExactlyWhen(k: nat, n: nat)
    requires k < 64 && n <= 64
    ensures (forall w: u64, next: u64 ::
               Extract(w, next, k, n) == PackedAt(ToBits(w, 64) + ToBits(next, 64), k, n))
            <==> !(n == 64 && k == 0)
  {
    if n == 64 && k == 0 {
      WideExtract(0, 1);
      assert Extract(0, 1, 0, 64) != 0 by {
        assert Bit(1, 0);
        assert Bit(Or(1, 0), 0);
        ZeroHasNoBits();
      }
      var s := ToBits(0, 64) + ToBits(1, 64);
      assert s[0..64] == ToBits(0, 64);
      assert PackedAt(s, 0, 64) == 0 by {
        Pow2Is64();
        FromToBits(0, 64);
      }
    } else {
      forall w: u64, next: u64
        ensures Extract(w, next, k, n) == PackedAt(ToBits(w, 64) + ToBits(next, 64), k, n)
      {
        var s := ToBits(w, 64) + ToBits(next, 64);
        WordAtOfWords(w, next);
        ExtractIsPacked(s, 0, k, n);
      }
    }
  }

  lemma WordAtOfWords(w: u64, next: u64)
    ensures var s := ToBits(w, 64) + ToBits(next, 64); WordAt(s, 0) == w && WordAt(s, 64) == next
  {
    hide Bit, WordAt;
    var s := ToBits(w, 64) + ToBits(next, 64);
    WordsEqual(WordAt(s, 0), w);
    WordsEqual(WordAt(s, 64), next);
  }

  /**
    What a read of `n` bits at `p` returns when `p` is bit `k` of the cached word: the packed
    value, except that 64 bits from bit 0 come merged with the following word.
   */
  ghost function ReadAt(s: seq<bool>, p: nat, k: nat, n: nat): nat
    requires p + n <= |s|
  {
    if n == 64 && k == 0 then Or(WordAt(s, p + 64), WordAt(s, p)) else PackedAt(s, p, n)
  }

  /** The cached bit after `n` bytes are read at the next byte boundary. */
  function AlignedCache(k: nat, n: nat): (r: nat)
    ensures r < 64
  {
    var b := (k + 7) / 8;
    (if b + n > 8 then 8 * n else 8 * (b + n)) % 64
  }

  /** The cached bit after `m` such reads of one byte. */
  function AlignedCaches(k: nat, m: nat): (r: nat)
    ensures k < 64 ==> r < 64
  {
    if m == 0 then k else AlignedCache(AlignedCaches(k, m - 1), 1)
  }

  /** The cached bit after `m` bits are skipped: behind the cached word, whole bytes are jumped over. */
  function SkipCache(k: nat, m: nat): (r: nat)
    requires k < 64
    ensures r < 64
  {
    if k != 0 && m < 64 - k then k + m else (if k == 0 then m else m - (64 - k)) % 8
  }

  /** Byte-aligned bits inside the cached word. */
  lemma TrailingIsPacked(s: seq<bool>, p: nat, k: nat, n: nat)
    requires k < 64 && k + n <= 64 && p + k + n <= |s|
    ensures TrailingBits(Shr(WordAt(s, p), k), n) == PackedAt(s, p + k, n)
  {
    hide Bit, Shr, TrailingBits, WordAt, PackedAt;
    WordIsPacked(s, p + k, n, TrailingBits(Shr(WordAt(s, p), k), n));
  }

  class BitReader {
    var buffer: seq<byte>
    var bufferedValues: u64
    var byteOffset: nat
    var bitOffset: nat
    var totalBytes: nat

    /** The cached word is the zero-padded load at `byteOffset`, and the position is in range. */
    ghost predicate Valid()
      reads this
    {
      && totalBytes <= |buffer|
      && bitOffset < 64
      && Pos() <= 8 * totalBytes
      && bufferedValues == WordAt(Stream(), 8 * byteOffset)
    }

    /** The bits to read. */
    ghost function Stream(): (s: seq<bool>)
      reads this`buffer, this`totalBytes
      requires totalBytes <= |buffer|
      ensures |s| == 8 * totalBytes
    {
      Bits(buffer[..totalBytes])
    }

    /** How many bits have been read. */
    ghost function Pos(): nat
      reads this`byteOffset, this`bitOffset
    {
      8 * byteOffset + bitOffset
    }

    constructor (buf: seq<byte>, len: nat)
      requires len <= |buf|
      ensures buffer == buf && totalBytes == len
      ensures Valid() && Stream() == Bits(buf[..len]) && Pos() == 0
    {
      buffer := buf;
      bufferedValues := Load(buf, len, 0);
      byteOffset, bitOffset, totalBytes := 0, 0, len;
      new;
      LoadIsWordAt(buf, len, 0);
    }

    method Reset(buf: seq<byte>)
      modifies this
      ensures buffer == buf && totalBytes == |buf|
      ensures Valid() && Stream() == Bits(buf) && Pos() == 0
    {
      buffer := buf;
      totalBytes := |buf|;
      bufferedValues := Load(buf, |buf|, 0);
      byteOffset, bitOffset := 0, 0;
      LoadIsWordAt(buf, |buf|, 0);
      assert buf[..|buf|] == buf;
    }

    method ReloadBufferValues()
      requires byteOffset <= totalBytes <= |buffer|
      modifies this`bufferedValues
      ensures bufferedValues == WordAt(Stream(), 8 * byteOffset)
    {
      bufferedValues := Load(buffer, totalBytes, byteOffset);
      LoadIsWordAt(buffer, totalBytes, byteOffset);
    }

    method GetByteOffset() returns (n: nat)
      requires Valid()
      ensures 8 * n == RoundUp(Pos())
    {
      n := byteOffset + (bitOffset + 7) / 8;
    }

    /** Reads `numBits` bits that are known to be there. */
    method GetU64Value(numBits: nat) returns (v: u64)
      requires Valid() && numBits <= 64 && Pos() + numBits <= 8 * totalBytes
      modifies this`bufferedValues, this`byteOffset, this`bitOffset
      ensures Valid() && Pos() == old(Pos()) + numBits
      ensures bitOffset == (old(bitOffset) + numBits) % 64
      ensures v == ReadAt(Stream(), old(Pos()), old(bitOffset), numBits)
    {
      hide Bits, WordAt, PackedAt, And, Or, Shl, Shr, HighMask, Ones, Extract;
      ghost var s, p, w, k := Stream(), 8 * byteOffset, bufferedValues, bitOffset;
      ghost var next := WordAt(s, p + 64);
      if numBits < 64 || bitOffset > 0 {
        ExtractIsPacked(s, p, k, numBits);
      } else {
        WideExtract(w, next);
      }
      ExtractSteps(w, next, k, numBits);
      if numBits == 0 {
        return 0;
      }
      var x := Shr(bufferedValues, bitOffset);
      var mask := HighMask(numBits);
      bitOffset := bitOffset + numBits;
      if bitOffset < 64 {
        v := And(x, mask);
      } else {
        byteOffset := byteOffset + 8;
        bitOffset := bitOffset - 64;
        ReloadBufferValues();
        v := And(Or(WrappingShl(bufferedValues, numBits - bitOffset), x), mask);
      }
    }

    /** Reads a packed value; `None`, with nothing changed, when fewer than `numBits` bits are left. */
    method GetValue(numBits: nat) returns (r: Option<u64>)
      requires Valid() && numBits <= 64
      modifies this`bufferedValues, this`byteOffset, this`bitOffset
      ensures Valid()
      ensures r.None? <==> old(Pos()) + numBits > 8 * totalBytes
      ensures r.None? ==> unchanged(this)
      ensures r.Some? ==> Pos() == old(Pos()) + numBits && bitOffset == (old(bitOffset) + numBits) % 64
      ensures r.Some? ==> r.value == ReadAt(Stream(), old(Pos()), old(bitOffset), numBits)
    {
      hide Bits, ReadAt;
      if byteOffset * 8 + bitOffset + numBits > totalBytes * 8 {
        return None;
      }
      var v := GetU64Value(numBits);
      return Some(v);
    }

    /** Reads `numBytes` bytes at the next byte boundary; `None`, with nothing changed, when they are not there. */
    method GetAligned(numBytes: nat) returns (r: Option<u64>)
      requires Valid() && numBytes <= 8
      modifies this`bufferedValues, this`byteOffset, this`bitOffset
      ensures Valid()
      ensures r.None? <==> RoundUp(old(Pos())) + 8 * numBytes > 8 * totalBytes
      ensures r.None? ==> unchanged(this)
      ensures r.Some? ==>
                && Pos() == RoundUp(old(Pos())) + 8 * numBytes
                && bitOffset == AlignedCache(old(bitOffset), numBytes)
                && r.value == PackedAt(Stream(), RoundUp(old(Pos())), 8 * numBytes)
    {
      hide Bits, WordAt, PackedAt, Shr, TrailingBits, RoundUp, WrappingShr;
      NextByte(byteOffset, bitOffset);
      var bytesRead := (bitOffset + 7) / 8;
      if byteOffset + bytesRead + numBytes > totalBytes {
        return None;
      }
      if bytesRead + numBytes > 8 {
        byteOffset := byteOffset + bytesRead;
        ReloadBufferValues();
        bitOffset := 0;
      } else {
        bitOffset := bytesRead * 8;
      }
      var v := TrailingBits(WrappingShr(bufferedValues, bitOffset), numBytes * 8);
      AlignedIsPacked(Stream(), 8 * byteOffset, bitOffset, 8 * numBytes);
      Advance(numBytes * 8);
      return Some(v);
    }

    /** Moves behind `n` more bits of the cached word, to the next word when it is drained. */
    method Advance(n: nat)
      requires totalBytes <= |buffer| && bitOffset + n <= 64 && Pos() + n <= 8 * totalBytes
      requires bufferedValues == WordAt(Stream(), 8 * byteOffset)
      modifies this`bufferedValues, this`byteOffset, this`bitOffset
      ensures Valid() && Pos() == old(Pos()) + n && bitOffset == (old(bitOffset) + n) % 64
    {
      hide Bits, WordAt;
      bitOffset := bitOffset + n;
      if bitOffset == 64 {
        byteOffset := byteOffset + 8;
        bitOffset := bitOffset - 64;
        ReloadBufferValues();
      }
    }

    /** Skips up to `numBits` bits and returns how many. */
    method SkipBits(numBits: nat) returns (n: nat)
      requires Valid()
      modifies this`bufferedValues, this`byteOffset, this`bitOffset
      ensures Valid()
      ensures n == Min(numBits, 8 * totalBytes - old(Pos()))
      ensures Pos() == old(Pos()) + n && bitOffset == SkipCache(old(bitOffset), n)
    {
      hide Bits, WordAt;
      var remainingBits := (totalBytes - byteOffset) * 8 - bitOffset;
      n := Min(remainingBits, numBits);
      var i := 0;
      if bitOffset != 0 {
        var left := 64 - bitOffset;
        if n < left {
          bitOffset := bitOffset + n;
          i := n;
        } else {
          byteOffset := byteOffset + 8;
          bitOffset := 0;
          i := left;
        }
      }
      if i + 7 < n {
        var numBytes := (n - i) / 8;
        i := i + numBytes * 8;
        byteOffset := byteOffset + numBytes;
      }
      if bitOffset == 0 {
        ReloadBufferValues();
      }
      if i < n {
        bitOffset := bitOffset + (n - i);
      }
    }

    /** The whole bytes left to read. */
    ghost function Tail(): (bs: seq<byte>)
      reads this
      requires Valid()
      ensures RoundUp(Pos()) + 8 * |bs| == 8 * totalBytes
      ensures bs == buffer[RoundUp(Pos()) / 8..totalBytes]
    {
      buffer[RoundUp(Pos()) / 8..totalBytes]
    }

    /**
      Reads a base-128 integer. `None` exactly when no byte below 128 is left, and then every
      whole byte has been consumed.
     */
    method GetVlqInt() returns (r: Option<i64>)
      requires Valid()
      modifies this`bufferedValues, this`byteOffset, this`bitOffset
      ensures Valid()
      ensures match VlqLength(old(Tail()))
              case Some(n) =>
                && r == Some(Signed(VlqFold(old(Tail())[..n])))
                && Pos() == RoundUp(old(Pos())) + 8 * n
                && bitOffset == AlignedCaches(old(bitOffset), n)
              case None =>
                && r.None?
                && Pos() == (if old(Tail()) == [] then old(Pos()) else 8 * totalBytes)
                && bitOffset == AlignedCaches(old(bitOffset), |old(Tail())|)
    {
      hide Bits, WordAt, PackedAt, And, Or, WrappingShl, Signed, VlqFold, VlqLength, RoundUp, AlignedCache, Tail,
        Continued;
      ghost var tail, q, n := Tail(), RoundUp(Pos()), 0;
      var shift := 0;
      var v: u64 := 0;
      FoldStart(tail);
      while true
        invariant Valid() && 0 <= n <= |tail|
        invariant Continued(tail, n)
        invariant Pos() == if n == 0 then old(Pos()) else q + 8 * n
        invariant bitOffset == AlignedCaches(old(bitOffset), n)
        invariant v == VlqFold(tail[..n]) && shift == 7 * n
        decreases |tail| - n
      {
        RoundUpAligned(q + 8 * n);
        var next := GetAligned(1);
        ContinuedNext(tail, n);
        if next.None? {
          return None;
        }
        TailByte(buffer, totalBytes, q, tail, n);
        FoldNext(tail, n);
        LastGroup(tail[n]);
        v := Or(v, WrappingShl(And(next.value, 0x7F), shift));
        shift := shift + 7;
        n := n + 1;
        if And(next.value, 0x80) == 0 {
          return Some(Signed(v));
        }
      }
    }

    method GetZigzagVlqInt() returns (r: Option<i64>)
      requires Valid()
      modifies this`bufferedValues, this`byteOffset, this`bitOffset
      ensures Valid()
      ensures match VlqLength(old(Tail()))
              case Some(n) =>
                var u := VlqFold(old(Tail())[..n]);
                && r == Some(if u % 2 == 1 then -(u / 2) - 1 else u / 2)
                && Pos() == RoundUp(old(Pos())) + 8 * n
                && bitOffset == AlignedCaches(old(bitOffset), n)
              case None =>
                && r.None?
                && Pos() == (if old(Tail()) == [] then old(Pos()) else 8 * totalBytes)
                && bitOffset == AlignedCaches(old(bitOffset), |old(Tail())|)
    {
      hide VlqFold, VlqLength, Bits, WordAt, AlignedCaches, Tail;
      var v := GetVlqInt();
      if v.None? {
        return None;
      }
      ZigzagDecodeIs(Pattern(v.value));
      return Some(ZigzagDecode(Pattern(v.value)));
    }

    /**
      Moves up to `numBits` bits of the cached word into `dst` at bit `offset`, or-ing them in,
      and returns how many. Afterwards the word is drained or the request is met.
     */
    method GetBitsBuffered(dst: array<byte>, offset: nat, numBits: nat) returns (n: nat)
      requires Valid() && Pos() + numBits <= 8 * totalBytes && offset + numBits <= 8 * dst.Length
      modifies this`bufferedValues, this`byteOffset, this`bitOffset, dst
      ensures Valid()
      ensures n == Min(numBits, 64 - old(bitOffset)) && Pos() == old(Pos()) + n
      ensures bitOffset == 0 || n == numBits
      ensures Bits(dst[..]) == Blend(old(Bits(dst[..])), offset, Stream()[old(Pos())..old(Pos()) + n])
    {
      hide Bits, ToBits, WordAt, Shr, TrailingBits, Blend, Pow2;
      ghost var d, s, p := Bits(dst[..]), Stream(), Pos();
      if numBits == 0 {
        BlendNothing(d, offset);
        assert s[p..p + 0] == [];
        return 0;
      }
      n := Min(numBits, 64 - bitOffset);
      var v := TrailingBits(Shr(bufferedValues, bitOffset), n);
      TrailingBitsOfStream(s, 8 * byteOffset, bitOffset, n);
      Scatter(dst, offset, v, n);
      Advance(n);
    }

    /** The `memcpy` phase of `GetBits`: whole bytes, when source and target are aligned. */
    method CopyWholeBytes(dst: array<byte>, offset: nat, n: nat) returns (m: nat)
      requires Valid() && (bitOffset == 0 || n == 0)
      requires Pos() + n <= 8 * totalBytes && offset + n <= 8 * dst.Length
      modifies this`bufferedValues, this`byteOffset, dst
      ensures Valid() && m == BytesCopied(offset, n) && Pos() == old(Pos()) + m
      ensures Bits(dst[..]) == Replace(old(Bits(dst[..])), offset, Stream()[old(Pos())..old(Pos()) + m])
    {
      hide Bits, WordAt, Replace, Overwrite;
      m := 0;
      ReplaceNothing(Bits(dst[..]), offset);
      assert Stream()[Pos()..Pos() + 0] == [];
      if offset % 8 == 0 && 0 < n {
        var numBytes := n / 8;
        var dstByteOffset := offset / 8;
        if numBytes > 0 {
          CopyBytes(buffer[..totalBytes], byteOffset, numBytes, dst[..], dstByteOffset);
          assert buffer[..totalBytes][byteOffset..byteOffset + numBytes] == buffer[byteOffset..byteOffset + numBytes];
          Memcpy(buffer[byteOffset..byteOffset + numBytes], dst, dstByteOffset);
          m := numBytes * 8;
          byteOffset := byteOffset + numBytes;
          ReloadBufferValues();
        }
      }
    }

    /** The last phase of `GetBits`: `n` more bits through the cached word. */
    method CopyThroughWord(dst: array<byte>, offset: nat, n: nat)
      requires Valid() && Pos() + n <= 8 * totalBytes && offset + n <= 8 * dst.Length
      modifies this`bufferedValues, this`byteOffset, this`bitOffset, dst
      ensures Valid() && Pos() == old(Pos()) + n
      ensures Bits(dst[..]) == Blend(old(Bits(dst[..])), offset, Stream()[old(Pos())..old(Pos()) + n])
    {
      hide Bits, WordAt, Blend;
      ghost var d, s, p := Bits(dst[..]), Stream(), Pos();
      var i := 0;
      BlendNothing(d, offset);
      assert s[p..p + 0] == [];
      while i < n
        invariant 0 <= i <= n && Valid() && Pos() == p + i
        invariant Bits(dst[..]) == Blend(d, offset, s[p..p + i])
        decreases n - i
      {
        ghost var i0 := i;
        var m := GetBitsBuffered(dst, offset + i, n - i);
        i := i + m;
        BlendTwice(d, offset, s[p..p + i0], s[p + i0..p + i]);
        assert s[p..p + i0] + s[p + i0..p + i] == s[p..p + i];
      }
    }

    /**
      Appends up to `numBits` bits to `dst` at bit `offset` and returns how many. Bits moved
      through the cached word are or-ed into `dst`; whole bytes moved by `memcpy` replace it.
     */
    method GetBits(dst: array<byte>, offset: nat, numBits: nat) returns (n: nat)
      requires Valid() && offset < 8 * dst.Length
      modifies this`bufferedValues, this`byteOffset, this`bitOffset, dst
      ensures Valid()
      ensures n == Min(8 * totalBytes - old(Pos()), Min(numBits, 8 * dst.Length - offset))
      ensures Pos() == old(Pos()) + n
      ensures var i := Drained(old(bitOffset), n);
              var j := i + BytesCopied(offset + i, n - i);
              Bits(dst[..]) == Copied(old(Bits(dst[..])), offset, Stream()[old(Pos())..old(Pos()) + n], i, j)
      ensures var i := if old(bitOffset) == 0 then 0 else Min(n, 64 - old(bitOffset));
              CopiedBits(Bits(dst[..]), old(Bits(dst[..])), offset, Stream()[old(Pos())..old(Pos()) + n], i)
    {
      hide Bits, WordAt, Blend, Replace, Copied, BytesCopied, CopiedBits;
      ghost var d, s, p := Bits(dst[..]), Stream(), Pos();
      var remainingBits := (totalBytes - byteOffset) * 8 - bitOffset;
      n := Min(remainingBits, Min(numBits, dst.Length * 8 - offset));
      var i := 0;
      if bitOffset != 0 {
        i := GetBitsBuffered(dst, offset, n);
      } else {
        BlendNothing(d, offset);
        assert s[p..p + 0] == [];
      }
      ghost var i1 := i;
      var m := CopyWholeBytes(dst, offset + i, n - i);
      i := i + m;
      CopyThroughWord(dst, offset + i, n - i);
      CopiedInPhases(d, offset, s, p, n, i1, i);
      CopiedIsBits(d, offset, s[p..p + n], Drained(old(bitOffset), n));
    }

    /**
      One value at a time into `batch[start..]`, up to index `count`; with `align`, only until
      the cached word is drained. Returns the first index not written.
     */
    method GetRun(batch: array<u64>, start: nat, count: nat, numBits: nat, size: nat, align: bool) returns (i: nat)
      requires Valid() && start <= count <= batch.Length && numBits <= 64
      requires |StoredRun(Stream(), Pos(), bitOffset, numBits, size, count - start)| == count - start
      modifies this`bufferedValues, this`byteOffset, this`bitOffset, batch
      ensures Valid() && start <= i <= count && (bitOffset == 0 || i == count)
      ensures Pos() == old(Pos()) + Span(numBits, i - start)
      ensures i == start + if align then AlignSteps(old(bitOffset), numBits, count - start) else count - start
      ensures var run := StoredRun(Stream(), old(Pos()), old(bitOffset), numBits, size, count - start);
              && StoredRun(Stream(), Pos(), bitOffset, numBits, size, count - i) == run[i - start..]
              && RunFilled(batch[..], old(batch[..]), start, i, run)
    {
      hide Bits, WordAt, ReadAt, StoredRun, RunFilled, TrailingBits, Or, Span, AlignSteps;
      SpanAdd(numBits, 0, 0);
      ghost var s, p, was := Stream(), Pos(), batch[..];
      ghost var run := StoredRun(s, p, bitOffset, numBits, size, count - start);
      i := start;
      RunFilledStart(was, start, run);
      while i < count && (!align || bitOffset != 0)
        invariant start <= i <= count && Valid()
        invariant Pos() == p + Span(numBits, i - start)
        invariant StoredRun(s, Pos(), bitOffset, numBits, size, count - i) == run[i - start..]
        invariant align ==> start + AlignSteps(old(bitOffset), numBits, count - start)
                            == i + AlignSteps(bitOffset, numBits, count - i)
        invariant RunFilled(batch[..], was, start, i, run)
        decreases count - i
      {
        AlignNext(bitOffset, numBits, count - i);
        StoredNext(s, Pos(), bitOffset, numBits, size, count - i, run, i - start);
        SpanAdd(numBits, i - start, 1);
        var v := GetU64Value(numBits);
        RunFilledNext(batch[..], was, start, i, run);
        batch[i] := TrailingBits(v, 8 * size);
        i := i + 1;
      }
      AlignNext(bitOffset, numBits, count - i);
    }

    /** Thirty-two values at a time into `batch[start..]`, while that many are left. */
    method GetBulk(batch: array<u64>, start: nat, count: nat, numBits: nat, size: nat) returns (i: nat)
      requires Valid() && start <= count <= batch.Length && numBits <= 32
      requires bitOffset == 0 || start == count
      requires |PackedRun(Stream(), Pos(), numBits, count - start)| == count - start
      modifies this`bufferedValues, this`byteOffset, batch
      ensures Valid() && i == BulkEnd(start, count)
      ensures Pos() == old(Pos()) + Span(numBits, i - start)
      ensures var run := PackedRun(Stream(), old(Pos()), numBits, count - start);
              && PackedRun(Stream(), Pos(), numBits, count - i) == run[i - start..]
              && BulkFilled(batch[..], old(batch[..]), start, i, run, size)
    {
      hide Bits, WordAt, PackedAt, PackedRun, BulkFilled, AllU32, Span;
      SpanAdd(numBits, 0, 0);
      ghost var s, p, was := Stream(), Pos(), batch[..];
      ghost var run := PackedRun(s, p, numBits, count - start);
      i := start;
      BulkFilledStart(was, start, run, size);
      while count - i >= 32
        invariant start <= i <= count && byteOffset <= totalBytes && (i - start) % 32 == 0
        invariant Pos() == p + Span(numBits, i - start) && Pos() <= |s|
        invariant PackedRun(s, Pos(), numBits, count - i) == run[i - start..]
        invariant BulkFilled(batch[..], was, start, i, run, size)
        decreases count - i
      {
        BulkStep(buffer, totalBytes, byteOffset, numBits, count - i);
        var out := Unpack32(buffer[byteOffset..byteOffset + 4 * numBits], numBits);
        SpanAdd(numBits, i - start, 32);
        ghost var now := batch[..];
        StoreBlock(batch, i, out, size);
        BulkFilledNext(batch[..], now, was, start, i, run, out, size);
        SuffixOfSuffix(run, i - start, 32);
        byteOffset := byteOffset + 4 * numBits;
        i := i + 32;
      }
      ReloadBufferValues();
    }

    /**
      The blocks of a batch read whose run starts at `p`, bit `k` of the word cached there: they
      store what single reads would, apart from the high half of eight-byte elements.
     */
    method GetBlocks(batch: array<u64>, start: nat, count: nat, numBits: nat, size: nat, ghost p: nat, ghost k: nat)
      returns (i: nat)
      requires Valid() && start <= count <= batch.Length && numBits <= 32
      requires bitOffset == 0 || start == count
      requires p <= |Stream()| && Pos() == p + Span(numBits, start)
      requires |PackedRun(Stream(), p, numBits, count)| == count
      modifies this`bufferedValues, this`byteOffset, batch
      ensures Valid() && i == BulkEnd(start, count) && Pos() == p + Span(numBits, i)
      ensures var run := StoredRun(Stream(), p, k, numBits, size, count);
              && |run| == count && InBulk(batch[..], old(batch[..]), start, i, run, size)
              && StoredRun(Stream(), Pos(), bitOffset, numBits, size, count - i) == run[i..]
    {
      hide Bits, WordAt, PackedAt, PackedRun, StoredRun, BulkFilled, InBulk, Span;
      ghost var s, was := Stream(), batch[..];
      PackedAfter(s, p, numBits, count, start);
      i := GetBulk(batch, start, count, numBits, size);
      SpanAdd(numBits, start, i - start);
      SuffixOfSuffix(PackedRun(s, p, numBits, count), start, i - start);
      BulkIsStored(s, p, k, numBits, size, count, start, i, was, batch[..]);
      StoredAfter(s, p, k, Pos(), bitOffset, numBits, size, count, i);
    }

    /**
      The three loops of a batch read: single values, blocks of 32, single values. Blocks are
      unpacked for widths up to 32 only: a wider read panics exactly when 32 values are left once
      the cached word is drained.
     */
    method FillBatch(batch: array<u64>, count: nat, numBits: nat, size: nat) returns (panicked: bool)
      requires Valid() && count <= batch.Length && numBits <= 64
      requires |PackedRun(Stream(), Pos(), numBits, count)| == count
      modifies this`bufferedValues, this`byteOffset, this`bitOffset, batch
      ensures Valid()
      ensures panicked <==> numBits > 32 && count - AlignSteps(old(bitOffset), numBits, count) >= 32
      ensures var run := StoredRun(Stream(), old(Pos()), old(bitOffset), numBits, size, count);
              var lo := AlignSteps(old(bitOffset), numBits, count);
              && |run| == count
              && (if panicked then RunFilled(batch[..], old(batch[..]), 0, lo, run)
                  else
                    && Pos() == old(Pos()) + Span(numBits, count)
                    && batch[..] == Batch(old(batch[..]), run, lo, BulkEnd(lo, count), size))
    {
      hide Bits, WordAt, PackedAt, PackedRun, StoredRun, InBulk, RunFilled, Batch, Span, AlignSteps, BulkEnd;
      ghost var s, p, k0, was := Stream(), Pos(), bitOffset, batch[..];
      ghost var run := StoredRun(s, p, k0, numBits, size, count);
      StoredLength(s, p, k0, numBits, size, count);
      var i := GetRun(batch, 0, count, numBits, size, true);
      ghost var b1, lo := batch[..], i;
      if numBits > 32 {
        if count - i >= 32 {
          return true;
        }
        ReloadBufferValues();
        InBulkStart(b1, lo, run, size);
        NoBlock(lo, count);
      } else {
        i := GetBlocks(batch, i, count, numBits, size, p, k0);
      }
      ghost var b2, hi := batch[..], i;
      i := GetRun(batch, i, count, numBits, size, false);
      SpanAdd(numBits, hi, i - hi);
      BatchFrom(was, b1, b2, batch[..], run, lo, hi, size);
      return false;
    }

    /**
      Reads up to `batch.Length` values of width `numBits` into elements of `size` bytes. Their
      number and the position are those of repeated `GetValue` calls, and so are the elements,
      except that one of eight bytes written in bulk keeps its high half.
     */
    method GetBatch(batch: array<u64>, numBits: nat, size: nat) returns (count: nat, panicked: bool)
      requires Valid() && numBits <= 64 && size in {1, 2, 4, 8}
      modifies this`bufferedValues, this`byteOffset, this`bitOffset, batch
      ensures Valid() && count == |PackedRun(Stream(), old(Pos()), numBits, batch.Length)|
      ensures panicked <==> numBits > 32 && count - AlignSteps(old(bitOffset), numBits, count) >= 32
      ensures var run := StoredRun(Stream(), old(Pos()), old(bitOffset), numBits, size, count);
              var lo := AlignSteps(old(bitOffset), numBits, count);
              && |run| == count
              && (if panicked then RunFilled(batch[..], old(batch[..]), 0, lo, run)
                  else
                    && Pos() == old(Pos()) + Span(numBits, count)
                    && batch[..] == Batch(old(batch[..]), run, lo, BulkEnd(lo, count), size))
    {
      hide Bits, WordAt, PackedAt, PackedRun, StoredRun, RunFilled, Batch, Span, AlignSteps, ValuesToRead;
      ghost var s, p := Stream(), Pos();
      var remainingBits := (totalBytes - byteOffset) * 8 - bitOffset;
      count := ValuesToRead(batch.Length, numBits, remainingBits);
      ValuesToReadIsRun(s, p, numBits, batch.Length);
      PackedRunCut(s, p, numBits, batch.Length);
      panicked := FillBatch(batch, count, numBits, size);
    }

    /**
      The unchecked form for `u32` elements: the caller promises that `total` values are there.
      Without a panic every element holds the low 32 bits of what its single read returns.
     */
    method GetU32Batch(dst: array<u64>, total: nat, numBits: nat) returns (panicked: bool)
      requires Valid() && numBits <= 64 && total <= dst.Length
      requires Pos() + numBits * total <= 8 * totalBytes
      modifies this`bufferedValues, this`byteOffset, this`bitOffset, dst
      ensures Valid()
      ensures panicked <==> numBits > 32 && total - AlignSteps(old(bitOffset), numBits, total) >= 32
      ensures var run := StoredRun(Stream(), old(Pos()), old(bitOffset), numBits, 4, total);
              && |run| == total
              && (if panicked then RunFilled(dst[..], old(dst[..]), 0, AlignSteps(old(bitOffset), numBits, total), run)
                  else Pos() == old(Pos()) + Span(numBits, total) && dst[..] == run + old(dst[..])[total..])
    {
      hide Bits, WordAt, PackedAt, PackedRun, StoredRun, RunFilled, Batch, Span, AlignSteps;
      ghost var run := StoredRun(Stream(), Pos(), bitOffset, numBits, 4, total);
      ghost var was, lo := dst[..], AlignSteps(bitOffset, numBits, total);
      PackedRunLength(Stream(), Pos(), numBits, total);
      panicked := FillBatch(dst, total, numBits, 4);
      BatchOfNarrow(was, run, lo, BulkEnd(lo, total), 4);
    }
  }

  /** The batch size, cut when fewer bits remain. */
  function ValuesToRead(len: nat, numBits: nat, remainingBits: nat): nat {
    var neededBits := numBits * len;
    if remainingBits < neededBits then
      NonzeroWidth(numBits, len);
      remainingBits / numBits
    else len
  }

  lemma NonzeroWidth(n: nat, count: nat)
    requires n * count > 0
    ensures n > 0
  {
  }

  /** The cut is exactly where repeated single reads would first fail. */
  lemma ValuesToReadIsRun(s: seq<bool>, p: nat, n: nat, len: nat)
    requires p <= |s|
    ensures ValuesToRead(len, n, |s| - p) == |PackedRun(s, p, n, len)|
  {
    PackedRunLength(s, p, n, len);
  }

  /** Stores 32 unpacked values. */
  method StoreBlock(batch: array<u64>, at: nat, out: seq<u64>, size: nat)
    requires |out| == 32 && at + 32 <= batch.Length && AllU32(out)
    modifies batch
    ensures BulkFilled(batch[..], old(batch[..]), at, at + 32, out, size)
  {
    hide Stored, IsU32;
    for n := 0 to 32
      invariant forall k :: at <= k < at + n ==> batch[k] == Stored(old(batch[k]), out[k - at], size)
      invariant forall k :: 0 <= k < batch.Length && !(at <= k < at + n) ==> batch[k] == old(batch[k])
    {
      batch[at + n] := Stored(batch[at + n], out[n], size);
    }
  }

  /** `now` is `was` with `run` in place from `start` up to `i`. */
  ghost predicate RunFilled(now: seq<u64>, was: seq<u64>, start: nat, i: nat, run: seq<nat>) {
    && |now| == |was| && start <= i <= |was| && i - start <= |run|
    && (forall k :: start <= k < i ==> now[k] == run[k - start])
    && forall k :: 0 <= k < |was| && !(start <= k < i) ==> now[k] == was[k]
  }

  lemma RunFilledStart(was: seq<u64>, start: nat, run: seq<nat>)
    requires start <= |was|
    ensures RunFilled(was, was, start, start, run)
  {
  }

  lemma RunFilledNext(now: seq<u64>, was: seq<u64>, start: nat, i: nat, run: seq<u64>)
    requires RunFilled(now, was, start, i, run) && i < |now| && i - start < |run|
    ensures RunFilled(now[i := run[i - start]], was, start, i + 1, run)
  {
  }

  /** The same with every element stored as a bulk-unpacked one. */
  ghost predicate BulkFilled(now: seq<u64>, was: seq<u64>, start: nat, i: nat, run: seq<nat>, size: nat) {
    && |now| == |was| && start <= i <= |was| && i - start <= |run|
    && (forall k :: start <= k < i ==> StoredAs(now[k], was[k], run[k - start], size))
    && forall k :: 0 <= k < |was| && !(start <= k < i) ==> now[k] == was[k]
  }

  lemma BulkFilledStart(was: seq<u64>, start: nat, run: seq<nat>, size: nat)
    requires start <= |was|
    ensures BulkFilled(was, was, start, start, run, size)
  {
  }

  lemma BulkFilledNext(
      next: seq<u64>, now: seq<u64>, was: seq<u64>, start: nat, i: nat, run: seq<nat>, out: seq<nat>, size: nat)
    requires BulkFilled(now, was, start, i, run, size) && BulkFilled(next, now, i, i + 32, out, size)
    requires i - start + 32 <= |run| && |out| == 32 && out == run[i - start..][..32]
    ensures BulkFilled(next, was, start, i + 32, run, size)
  {
    hide Stored;
    forall k | start <= k < i + 32
      ensures StoredAs(next[k], was[k], run[k - start], size)
    {
      if i <= k {
        assert out[k - i] == run[i - start..][k - i] == run[k - start];
        assert StoredAs(next[k], now[k], out[k - i], size) && now[k] == was[k];
      } else {
        assert next[k] == now[k];
      }
    }
    forall k | 0 <= k < |was| && !(start <= k < i + 32)
      ensures next[k] == was[k]
    {
      assert next[k] == now[k];
    }
  }

  predicate IsU32(x: nat) {
    x < 0x1_0000_0000
  }

  predicate AllU32(xs: seq<nat>) {
    forall k :: 0 <= k < |xs| ==> IsU32(xs[k])
  }

  /** How a bulk-unpacked `u32` lands in an element: a wider element keeps its high half. */
  function Stored(was: u64, x: nat, size: nat): u64
    requires IsU32(x)
  {
    if size > 4 then was - was % 0x1_0000_0000 + x else TrailingBits(x, 8 * size)
  }

  ghost predicate StoredAs(now: u64, was: u64, x: nat, size: nat) {
    IsU32(x) && now == Stored(was, x, size)
  }

  /** The batch after `run` is read into it, with indices `lo` to `hi` stored in bulk. */
  function Batch(was: seq<u64>, run: seq<u64>, lo: nat, hi: nat, size: nat): (r: seq<u64>)
    requires |run| <= |was|
    ensures |r| == |was|
  {
    seq(|was|, k requires 0 <= k < |was| =>
      if k >= |run| then was[k]
      else if size > 4 && lo <= k < hi then LowHalfOf(was[k], run[k])
      else run[k])
  }

  /** `was` with its low half replaced by that of `x`. */
  function LowHalfOf(was: u64, x: u64): (r: u64)
    ensures r % 0x1_0000_0000 == x % 0x1_0000_0000 && r / 0x1_0000_0000 == was / 0x1_0000_0000
  {
    was - was % 0x1_0000_0000 + x % 0x1_0000_0000
  }

  /**
    An element of a batch: the low half is always that of its read, and so is all of it, unless it
    has eight bytes and is stored in bulk; then the high half is the one it had.
   */
  lemma BatchElement(was: seq<u64>, run: seq<u64>, lo: nat, hi: nat, size: nat, k: nat)
    requires |run| <= |was| && k < |was|
    ensures var x := Batch(was, run, lo, hi, size)[k];
            if k >= |run| then x == was[k]
            else
              && x % 0x1_0000_0000 == run[k] % 0x1_0000_0000
              && x / 0x1_0000_0000 == (if size > 4 && lo <= k < hi then was[k] else run[k]) / 0x1_0000_0000
  {
    hide LowHalfOf;
  }

  /** Single reads, bulk reads and single reads make up the batch. */
  lemma BatchFrom(
      was: seq<u64>, b1: seq<u64>, b2: seq<u64>, b3: seq<u64>, run: seq<u64>, lo: nat, hi: nat, size: nat)
    requires |run| <= |was| && lo <= hi <= |run|
    requires RunFilled(b1, was, 0, lo, run)
    requires InBulk(b2, b1, lo, hi, run, size)
    requires RunFilled(b3, b2, hi, |run|, run[hi..])
    ensures b3 == Batch(was, run, lo, hi, size)
  {
    hide LowHalfOf;
    forall k | 0 <= k < |was|
      ensures b3[k] == Batch(was, run, lo, hi, size)[k]
    {
      if hi <= k < |run| {
        assert run[hi..][k - hi] == run[k];
      }
    }
  }

  /** `now` is `was` with `run` stored in bulk from `lo` to `hi`. */
  ghost predicate InBulk(now: seq<u64>, was: seq<u64>, lo: nat, hi: nat, run: seq<u64>, size: nat) {
    && |now| == |was| && lo <= hi <= |run| <= |was|
    && (forall k :: lo <= k < hi ==> now[k] == if size > 4 then LowHalfOf(was[k], run[k]) else run[k])
    && forall k :: 0 <= k < |was| && !(lo <= k < hi) ==> now[k] == was[k]
  }

  lemma InBulkStart(was: seq<u64>, lo: nat, run: seq<u64>, size: nat)
    requires lo <= |run| <= |was|
    ensures InBulk(was, was, lo, lo, run, size)
  {
  }

  /** Blocks of 32 store what the single reads would, apart from the high half. */
  lemma BulkIsStored(
      s: seq<bool>, p: nat, k: nat, n: nat, size: nat, count: nat, lo: nat, hi: nat, was: seq<u64>, now: seq<u64>)
    requires p <= |s| && n <= 32 && lo <= hi <= count <= |was| && |PackedRun(s, p, n, count)| == count
    requires BulkFilled(now, was, lo, hi, PackedRun(s, p, n, count)[lo..], size)
    ensures |StoredRun(s, p, k, n, size, count)| == count
    ensures InBulk(now, was, lo, hi, StoredRun(s, p, k, n, size, count), size)
  {
    hide PackedRun, StoredRun, Stored, TrailingBits, LowHalfOf;
    var packed, run := PackedRun(s, p, n, count), StoredRun(s, p, k, n, size, count);
    StoredLength(s, p, k, n, size, count);
    forall i | lo <= i < hi
      ensures now[i] == if size > 4 then LowHalfOf(was[i], run[i]) else run[i]
    {
      assert packed[lo..][i - lo] == packed[i];
      assert StoredAs(now[i], was[i], packed[lo..][i - lo], size);
      StoredIsTrailing(s, p, k, n, size, count, i);
      StoredHalf(was[i], packed[i], size);
    }
  }

  lemma StoredHalf(was: u64, x: u64, size: nat)
    requires IsU32(x)
    ensures var low := TrailingBits(x, 8 * size);
            Stored(was, x, size) == if size > 4 then LowHalfOf(was, low) else low
  {
    hide TrailingBits;
    if size > 4 {
      assert x < Pow2(8 * size) by {
        Pow2Monotonic(32, 8 * size);
        Pow2Is64();
      }
      TrailingBitsNoop(x, 8 * size);
    }
  }

  /** The packed values behind the first `m`. */
  lemma PackedAfter(s: seq<bool>, p: nat, n: nat, count: nat, m: nat)
    requires p <= |s| && m <= count && |PackedRun(s, p, n, count)| == count
    ensures p + Span(n, m) <= |s| && PackedRun(s, p + Span(n, m), n, count - m) == PackedRun(s, p, n, count)[m..]
    ensures |PackedRun(s, p + Span(n, m), n, count - m)| == count - m
  {
    hide PackedRun;
    assert Span(n, m) == m * n;
    PackedRunSplit(s, p, n, m, count - m, p + Span(n, m));
  }

  /** Below 64 bits, what is stored does not depend on the cached bit. */
  lemma StoredAfter(
      s: seq<bool>, p: nat, k: nat, q: nat, k': nat, n: nat, size: nat, count: nat, m: nat)
    requires p <= |s| && q <= |s| && n < 64 && m <= count && |PackedRun(s, p, n, count)| == count
    requires PackedRun(s, q, n, count - m) == PackedRun(s, p, n, count)[m..]
    ensures |StoredRun(s, p, k, n, size, count)| == count
    ensures StoredRun(s, q, k', n, size, count - m) == StoredRun(s, p, k, n, size, count)[m..]
  {
    hide PackedRun, StoredRun, TrailingBits;
    StoredLength(s, p, k, n, size, count);
    StoredLength(s, q, k', n, size, count - m);
    var x, y := StoredRun(s, q, k', n, size, count - m), StoredRun(s, p, k, n, size, count);
    forall j | 0 <= j < count - m
      ensures x[j] == y[m..][j]
    {
      StoredIsTrailing(s, q, k', n, size, count - m, j);
      StoredIsTrailing(s, p, k, n, size, count, m + j);
      assert PackedRun(s, p, n, count)[m..][j] == PackedRun(s, p, n, count)[m + j];
    }
  }

  lemma BatchOfNarrow(was: seq<u64>, run: seq<u64>, lo: nat, hi: nat, size: nat)
    requires |run| <= |was| && size <= 4
    ensures Batch(was, run, lo, hi, size) == run + was[|run|..]
  {
  }

  /**
    Fast path refines slow path: up to four bytes an element, a batch holds the low bytes of the
    packed values, all of them where the width fits the element, and the rest is untouched.
   */
  lemma BatchIsRun(s: seq<bool>, p: nat, k: nat, n: nat, size: nat, count: nat, was: seq<u64>, lo: nat, hi: nat)
    requires p <= |s| && n <= 64 && (n < 64 || 0 < k < 64) && size <= 4 && count <= |was|
    ensures var packed := PackedRun(s, p, n, count);
            var batch := Batch(was, StoredRun(s, p, k, n, size, count), lo, hi, size);
            && |packed| <= |was| == |batch|
            && (forall j :: 0 <= j < |packed| ==> LowBytes(batch[j], packed[j], size))
            && (forall j :: |packed| <= j < |was| ==> batch[j] == was[j])
            && (n <= 8 * size ==> batch == packed + was[|packed|..])
  {
    hide PackedRun, StoredRun, TrailingBits, Batch;
    var run := StoredRun(s, p, k, n, size, count);
    StoredLength(s, p, k, n, size, count);
    BatchOfNarrow(was, run, lo, hi, size);
    forall j | 0 <= j < |run|
      ensures LowBytes(run[j], PackedRun(s, p, n, count)[j], size)
    {
      StoredIsTrailing(s, p, k, n, size, count, j);
    }
    if n <= 8 * size {
      StoredIsPacked(s, p, k, n, size, count);
    }
  }

  /** `x` is the word of the `size` low bytes of `v`. */
  ghost predicate LowBytes(x: u64, v: nat, size: nat) {
    v < TWO_TO_64 && x == TrailingBits(v, 8 * size)
  }

  /**
    Eight bytes an element, a batch holds the packed values exactly when the elements stored in
    bulk start with a zero high half.
   */
  lemma BatchOfWideExactlyWhen(s: seq<bool>, p: nat, k: nat, n: nat, count: nat, was: seq<u64>, lo: nat, hi: nat)
    requires p <= |s| && n <= 64 && (n < 64 || 0 < k < 64) && count <= |was|
    requires hi <= |PackedRun(s, p, n, count)| && (n <= 32 || hi <= lo)
    ensures var packed := PackedRun(s, p, n, count);
            Batch(was, StoredRun(s, p, k, n, 8, count), lo, hi, 8) == packed + was[|packed|..]
            <==> forall j :: lo <= j < hi ==> was[j] < 0x1_0000_0000
  {
    hide PackedRun, StoredRun, Batch;
    StoredIsPacked(s, p, k, n, 8, count);
    if n <= 32 {
      RunIsU32(s, p, n, count);
    }
    WideExactlyWhen(was, StoredRun(s, p, k, n, 8, count), lo, hi);
  }

  lemma WideExactlyWhen(was: seq<u64>, run: seq<u64>, lo: nat, hi: nat)
    requires |run| <= |was| && hi <= |run| && forall k :: lo <= k < hi ==> IsU32(run[k])
    ensures Batch(was, run, lo, hi, 8) == run + was[|run|..]
            <==> forall k :: lo <= k < hi ==> was[k] < 0x1_0000_0000
  {
    var b, exact := Batch(was, run, lo, hi, 8), run + was[|run|..];
    if k :| lo <= k < hi && was[k] >= 0x1_0000_0000 {
      assert IsU32(run[k]);
      assert b[k] != exact[k];
    } else {
      forall k | 0 <= k < |was|
        ensures b[k] == exact[k]
      {
        if lo <= k < hi {
          assert IsU32(run[k]);
        }
      }
    }
  }

  /** The bits that `k` values of width `n` take. */
  ghost function Span(n: nat, k: nat): nat {
    n * k
  }

  lemma SpanAdd(n: nat, a: nat, b: nat)
    ensures Span(n, a + b) == Span(n, a) + Span(n, b)
    ensures Span(n, 0) == 0 && Span(n, 1) == n && Span(n, 32) == 32 * n
  {
  }

  // ----- runs of packed values

  /** How many single reads of width `n` drain the cached word from bit `k`, out of `count`. */
  function AlignSteps(k: nat, n: nat, count: nat): (m: nat)
    ensures m <= count
    decreases count
  {
    if count == 0 || k == 0 then 0 else 1 + AlignSteps((k + n) % 64, n, count - 1)
  }

  /** Reading goes on exactly until the cached word is drained or the values are read. */
  lemma {:induction false} AlignStepsIs(k: nat, n: nat, count: nat)
    requires k < 64
    ensures var m := AlignSteps(k, n, count);
            && (m == count || (k + Span(n, m)) % 64 == 0)
            && forall j :: 0 <= j < m ==> (k + Span(n, j)) % 64 != 0
    decreases count
  {
    hide Span;
    SpanAdd(n, 0, 0);
    if count > 0 && k > 0 {
      var m := AlignSteps((k + n) % 64, n, count - 1);
      AlignStepsIs((k + n) % 64, n, count - 1);
      WrapSpan(k, n, m);
      forall j | 0 <= j < m + 1
        ensures (k + Span(n, j)) % 64 != 0
      {
        if j > 0 {
          WrapSpan(k, n, j - 1);
        }
      }
    }
  }

  lemma WrapSpan(k: nat, n: nat, j: nat)
    ensures (k + Span(n, j + 1)) % 64 == ((k + n) % 64 + Span(n, j)) % 64
  {
    hide Span;
    SpanAdd(n, j, 1);
    WrapAdd(k + n, Span(n, j));
  }

  lemma WrapAdd(a: nat, b: nat)
    ensures (a % 64 + b) % 64 == (a + b) % 64
  {
  }

  lemma AlignNext(k: nat, n: nat, count: nat)
    ensures AlignSteps(k, n, count) == if count == 0 || k == 0 then 0 else 1 + AlignSteps((k + n) % 64, n, count - 1)
  {
  }

  /**
    The values that repeated reads of width `n` store in elements of `size` bytes, starting at
    `p` with bit `k` cached, as long as the values are there.
   */
  ghost function StoredRun(s: seq<bool>, p: nat, k: nat, n: nat, size: nat, count: nat): (r: seq<u64>)
    requires p <= |s| && n <= 64
    ensures |r| <= count
    decreases count
  {
    if count == 0 || p + n > |s| then []
    else
      ReadIsWord(s, p, k, n);
      [TrailingBits(ReadAt(s, p, k, n), 8 * size)] + StoredRun(s, p + n, (k + n) % 64, n, size, count - 1)
  }

  lemma ReadIsWord(s: seq<bool>, p: nat, k: nat, n: nat)
    requires p + n <= |s| && n <= 64
    ensures ReadAt(s, p, k, n) < TWO_TO_64
  {
    hide Or, WordAt;
    FromBitsBound(s[p..p + n]);
    assert Pow2(n) <= TWO_TO_64 by {
      Pow2Monotonic(n, 64);
      Pow2Is64();
    }
  }

  /** What is left of a run after one more value. */
  lemma StoredNext(s: seq<bool>, p: nat, k: nat, n: nat, size: nat, count: nat, run: seq<nat>, j: nat)
    requires p <= |s| && n <= 64 && count > 0 && j + count == |run| && StoredRun(s, p, k, n, size, count) == run[j..]
    ensures p + n <= |s| && ReadAt(s, p, k, n) < TWO_TO_64
    ensures TrailingBits(ReadAt(s, p, k, n), 8 * size) == run[j]
    ensures StoredRun(s, p + n, (k + n) % 64, n, size, count - 1) == run[j + 1..]
  {
    hide ReadAt, TrailingBits;
    ReadIsWordIfThere(s, p, k, n);
    var r := StoredRun(s, p, k, n, size, count);
    assert r[0] == run[j] && r[1..] == run[j + 1..];
  }

  lemma ReadIsWordIfThere(s: seq<bool>, p: nat, k: nat, n: nat)
    requires n <= 64
    ensures p + n <= |s| ==> ReadAt(s, p, k, n) < TWO_TO_64
  {
    if p + n <= |s| {
      ReadIsWord(s, p, k, n);
    }
  }

  lemma {:induction false} StoredLength(s: seq<bool>, p: nat, k: nat, n: nat, size: nat, count: nat)
    requires p <= |s| && n <= 64
    ensures |StoredRun(s, p, k, n, size, count)| == |PackedRun(s, p, n, count)|
    decreases count
  {
    hide ReadAt, TrailingBits, PackedAt;
    if count > 0 && p + n <= |s| {
      StoredLength(s, p + n, (k + n) % 64, n, size, count - 1);
    }
  }

  /** Values that fit their elements are stored unchanged. */
  lemma {:induction false} StoredIsPacked(s: seq<bool>, p: nat, k: nat, n: nat, size: nat, count: nat)
    requires p <= |s| && n <= 64 && (n < 64 || 0 < k < 64) && n <= 8 * size
    ensures StoredRun(s, p, k, n, size, count) == PackedRun(s, p, n, count)
    decreases count
  {
    hide TrailingBits, PackedAt;
    if count > 0 && p + n <= |s| {
      ReadIsWord(s, p, k, n);
      NarrowIsNoop(s, p, n, size);
      StoredIsPacked(s, p + n, (k + n) % 64, n, size, count - 1);
    }
  }

  /** Unless 64 bits are read from bit 0 of a cached word, elements receive the low bytes of the packed values. */
  lemma {:induction false} StoredIsTrailing(s: seq<bool>, p: nat, k: nat, n: nat, size: nat, count: nat, j: nat)
    requires p <= |s| && n <= 64 && (n < 64 || 0 < k < 64)
    requires j < |PackedRun(s, p, n, count)|
    ensures |StoredRun(s, p, k, n, size, count)| == |PackedRun(s, p, n, count)|
    ensures PackedRun(s, p, n, count)[j] < TWO_TO_64
    ensures StoredRun(s, p, k, n, size, count)[j] == TrailingBits(PackedRun(s, p, n, count)[j], 8 * size)
    decreases count
  {
    hide TrailingBits, PackedAt;
    StoredLength(s, p, k, n, size, count);
    ReadIsWord(s, p, k, n);
    if j > 0 {
      StoredIsTrailing(s, p + n, (k + n) % 64, n, size, count - 1, j - 1);
    }
  }

  /** In `u32` elements those are the packed values modulo 2^32. */
  lemma U32RunIs(s: seq<bool>, p: nat, k: nat, n: nat, count: nat, j: nat)
    requires p <= |s| && n <= 64 && (n < 64 || 0 < k < 64)
    requires j < |PackedRun(s, p, n, count)|
    ensures |StoredRun(s, p, k, n, 4, count)| == |PackedRun(s, p, n, count)|
    ensures StoredRun(s, p, k, n, 4, count)[j] == PackedRun(s, p, n, count)[j] % 0x1_0000_0000
  {
    hide TrailingBits, PackedRun, StoredRun;
    StoredIsTrailing(s, p, k, n, 4, count, j);
    LowHalf(PackedRun(s, p, n, count)[j]);
  }

  lemma LowHalf(v: u64)
    ensures TrailingBits(v, 32) == v % 0x1_0000_0000
  {
    hide TrailingBits, Scale;
    var q := TrailingBitsIsMod(v, 32);
    ScaleIsMul(32, q);
    assert Pow2(32) == 0x1_0000_0000 by {
      Pow2Is64();
    }
    Remainder(v, TrailingBits(v, 32), q);
  }

  lemma Remainder(v: nat, r: nat, q: nat)
    requires v == r + 0x1_0000_0000 * q && r < 0x1_0000_0000
    ensures r == v % 0x1_0000_0000
  {
  }

  /** Where the blocks of 32 end. */
  function BulkEnd(start: nat, count: nat): (end: nat)
    requires start <= count
    ensures start <= end <= count
  {
    start + (count - start) / 32 * 32
  }

  /** Whole blocks, and less than one left over. */
  lemma BulkEndIs(start: nat, count: nat)
    requires start <= count
    ensures var end := BulkEnd(start, count); count < end + 32 && (end - start) % 32 == 0
  {
  }

  lemma NoBlock(start: nat, count: nat)
    requires start <= count < start + 32
    ensures BulkEnd(start, count) == start
  {
  }

  /** A complete run of 32 or more values starts with the 32 that `unpack32` reads. */
  lemma BulkStep(buf: seq<byte>, total: nat, from: nat, n: nat, count: nat)
    requires from <= total <= |buf| && n <= 32 && count >= 32
    requires |PackedRun(Bits(buf[..total]), 8 * from, n, count)| == count
    ensures from + 4 * n <= total
    ensures var out := PackedRun(Bits(buf[from..from + 4 * n]), 0, n, 32);
            && |out| == 32 && AllU32(out)
            && out == PackedRun(Bits(buf[..total]), 8 * from, n, count)[..32]
    ensures PackedRun(Bits(buf[..total]), 8 * (from + 4 * n), n, count - 32)
            == PackedRun(Bits(buf[..total]), 8 * from, n, count)[32..]
  {
    hide Bits, PackedAt, PackedRun, IsU32;
    var s := Bits(buf[..total]);
    PackedRunSplit(s, 8 * from, n, 32, count - 32, 8 * from + 32 * n);
    var window := buf[from..from + 4 * n];
    assert buf[..total][from..from + 4 * n] == window;
    BitsSlice(buf[..total], from, from + 4 * n);
    PackedRunLength(Bits(window), 0, n, 32);
    PackedRunWindow(s, 8 * from, 8 * (from + 4 * n), 0, n, 32);
    RunIsU32(s, 8 * from, n, 32);
  }

  lemma SuffixOfSuffix<T>(s: seq<T>, i: nat, j: nat)
    requires i + j <= |s|
    ensures s[i..][j..] == s[i + j..]
  {
  }

  lemma {:induction false} RunIsU32(s: seq<bool>, p: nat, n: nat, count: nat)
    requires p <= |s| && n <= 32
    ensures AllU32(PackedRun(s, p, n, count))
    decreases count
  {
    if count > 0 && p + n <= |s| {
      RunIsU32(s, p + n, n, count - 1);
      NarrowIsNoop(s, p, n, 4);
    }
  }

  /** Asking for exactly the values that are there gives the same run. */
  lemma {:induction false} PackedRunCut(s: seq<bool>, p: nat, n: nat, count: nat)
    requires p <= |s|
    ensures PackedRun(s, p, n, |PackedRun(s, p, n, count)|) == PackedRun(s, p, n, count)
    decreases count
  {
    if count > 0 && p + n <= |s| {
      PackedRunCut(s, p + n, n, count - 1);
      PackedRunJoin(s, p, n, 1 + |PackedRun(s, p + n, n, count - 1)|);
    }
  }

  /** A value of `n` bits survives narrowing to an element of at least `n` bits. */
  lemma NarrowIsNoop(s: seq<bool>, p: nat, n: nat, size: nat)
    requires p + n <= |s| && n <= 64 && n <= 8 * size
    ensures PackedAt(s, p, n) < TWO_TO_64 && (n <= 32 ==> PackedAt(s, p, n) < 0x1_0000_0000)
    ensures TrailingBits(PackedAt(s, p, n), 8 * size) == PackedAt(s, p, n)
  {
    var x := PackedAt(s, p, n);
    FromBitsBound(s[p..p + n]);
    assert x < TWO_TO_64 && (n <= 32 ==> x < 0x1_0000_0000) by {
      Pow2Monotonic(n, 64);
      if n <= 32 {
        Pow2Monotonic(n, 32);
      }
      Pow2Is64();
    }
    Pow2Monotonic(n, 8 * size);
    TrailingBitsNoop(x, 8 * size);
  }

  // ----- the three phases of get_bits

  /** The bits that the first phase drains from a partly read word. */
  function Drained(bitOffset: nat, n: nat): nat
    requires bitOffset < 64
  {
    if bitOffset != 0 then Min(n, 64 - bitOffset) else 0
  }

  /** The bits that `memcpy` moves when the target bit is on a byte boundary. */
  function BytesCopied(target: nat, n: nat): (m: nat)
    ensures m <= n
  {
    if target % 8 == 0 then n / 8 * 8 else 0
  }

  /** `d` after `src` is copied to `at`: replacing between `i` and `j`, or-ing elsewhere. */
  function Copied(d: seq<bool>, at: nat, src: seq<bool>, i: nat, j: nat): (r: seq<bool>)
    requires at + |src| <= |d|
    ensures |r| == |d|
  {
    seq(|d|, k requires 0 <= k < |d| =>
      if at <= k < at + |src| then src[k - at] || (d[k] && !(i <= k - at < j)) else d[k])
  }

  lemma CopiedInPhases(d: seq<bool>, at: nat, s: seq<bool>, p: nat, n: nat, i: nat, j: nat)
    requires p + n <= |s| && at + n <= |d| && i <= j <= n
    ensures Blend(Replace(Blend(d, at, s[p..p + i]), at + i, s[p + i..p + j]), at + j, s[p + j..p + n])
            == Copied(d, at, s[p..p + n], i, j)
  {
  }

  lemma ReplaceNothing(d: seq<bool>, at: nat)
    requires at <= |d|
    ensures Replace(d, at, []) == d
  {
  }

  /** Copying whole bytes replaces the target bits by the stream bits. */
  lemma CopyBytes(src: seq<byte>, from: nat, n: nat, dst: seq<byte>, to: nat)
    requires from + n <= |src| && to + n <= |dst|
    ensures Bits(Overwrite(dst, to, src[from..from + n]))
            == Replace(Bits(dst), 8 * to, Bits(src)[8 * from..8 * (from + n)])
  {
    hide Bits, Replace, Overwrite;
    BitsSlice(src, from, from + n);
    OverwriteReplaces(dst, to, src[from..from + n]);
  }

  /**
    The target `r` after `src` is copied into `d` with its first `i` bits taken from the cached
    word: bits are or-ed in, except in whole bytes that are moved when bit `i` lands on a byte
    boundary; other bits stay.
   */
  ghost predicate CopiedBits(r: seq<bool>, d: seq<bool>, at: nat, src: seq<bool>, i: nat) {
    && |r| == |d| && at + |src| <= |d|
    && forall k :: 0 <= k < |d| ==>
         r[k] == if !(at <= k < at + |src|) then d[k]
                 else if (at + i) % 8 == 0 && at + i <= k && k / 8 * 8 + 8 <= at + |src| then src[k - at]
                 else d[k] || src[k - at]
  }

  lemma CopiedIsBits(d: seq<bool>, at: nat, src: seq<bool>, i: nat)
    requires at + |src| <= |d| && i <= |src|
    ensures CopiedBits(Copied(d, at, src, i, i + BytesCopied(at + i, |src| - i)), d, at, src, i)
  {
    forall k | (at + i) % 8 == 0 && at + i <= k
      ensures k < at + i + BytesCopied(at + i, |src| - i) <==> k / 8 * 8 + 8 <= at + |src|
    {
      WholeByte(at + i, |src| - i, k);
    }
  }

  lemma WholeByte(from: nat, n: nat, k: nat)
    requires from % 8 == 0 && from <= k
    ensures k < from + n / 8 * 8 <==> k / 8 * 8 + 8 <= from + n
  {
  }

  /**
    The copy is exact, whatever the stream holds, exactly when every target bit outside the
    bytes moved by `memcpy` starts as zero.
   */
  lemma CopiedExactlyWhen(d: seq<bool>, at: nat, n: nat, i: nat, j: nat)
    requires at + n <= |d| && i <= j <= n
    ensures (forall src: seq<bool> :: |src| == n ==> Copied(d, at, src, i, j) == Replace(d, at, src))
            <==> (forall k :: at <= k < at + n && !(at + i <= k < at + j) ==> !d[k])
  {
    if k :| at <= k < at + n && !(at + i <= k < at + j) && d[k] {
      var src := Zeros(n);
      assert Copied(d, at, src, i, j)[k] != Replace(d, at, src)[k];
    } else {
      forall src: seq<bool> | |src| == n
        ensures Copied(d, at, src, i, j) == Replace(d, at, src)
      {
        assert forall k :: 0 <= k < |d| ==> Copied(d, at, src, i, j)[k] == Replace(d, at, src)[k];
      }
    }
  }

  // ----- moving a word into a byte buffer

  lemma ShrIsChecked(x: u64, k: nat)
    requires k < 64
    ensures Shr(x, k) == CheckedShr(x, k)
  {
  }

  lemma CheckedShrStep(x: u64, m: nat)
    ensures Shr(CheckedShr(x, m), 8) == CheckedShr(x, m + 8)
  {
    hide Bit, Shr, CheckedShr;
    WordHasNoHighBits(x);
    WordsEqual(Shr(CheckedShr(x, m), 8), CheckedShr(x, m + 8));
  }

  /** The bits taken from the cached word are the next bits of the stream. */
  lemma TrailingBitsOfStream(s: seq<bool>, p: nat, k: nat, n: nat)
    requires k < 64 && k + n <= 64 && p + k + n <= |s|
    ensures ToBits(TrailingBits(Shr(WordAt(s, p), k), n), n) == s[p + k..p + k + n]
    ensures TrailingBits(Shr(WordAt(s, p), k), n) < Pow2(n)
  {
    hide Bit, Shr, TrailingBits, WordAt;
    var x := TrailingBits(Shr(WordAt(s, p), k), n);
    Pow2Is64();
    BelowFromBits(x, n, 64);
  }

  /** Ors the `n` bits of `x` into `dst` at bit `offset`, byte by byte. */
  method Scatter(dst: array<byte>, offset: nat, x: u64, n: nat)
    requires 0 < n <= 64 && x < Pow2(n) && offset + n <= 8 * dst.Length
    modifies dst
    ensures Bits(dst[..]) == Blend(old(Bits(dst[..])), offset, ToBits(x, n))
  {
    hide Bits, ToBits, Shl, Shr, CheckedShr, Blend, OrByte, Pow2;
    ghost var d := Bits(dst[..]);
    var offsetI, offsetR := offset / 8, offset % 8;
    ScatterFirst(dst[..], offset, x);
    dst[offsetI] := OrByte(dst[offsetI], Shl(x, offsetR));
    ShrIsChecked(x, 8 - offsetR);
    var v := Shr(x, 8 - offsetR);
    for i := offsetI + 1 to offsetI + (n + offsetR + 7) / 8
      invariant v == CheckedShr(x, 8 * i - offset)
      invariant Bits(dst[..]) == Blend(d, offset, ToBits(x, 8 * i - offset))
    {
      ScatterNext(dst[..], d, offset, x, 8 * i - offset, i);
      dst[i] := OrByte(dst[i], v);
      CheckedShrStep(x, 8 * i - offset);
      v := Shr(v, 8);
    }
    ScatterEnd(d, offset, x, n, 8 * (offsetI + (n + offsetR + 7) / 8) - offset);
  }

  /** The first byte receives the low bits of `v`, moved up to the bit offset. */
  lemma ScatterFirst(bs: seq<byte>, offset: nat, v: u64)
    requires offset < 8 * |bs|
    ensures var i, r := offset / 8, offset % 8;
            Bits(bs[i := OrByte(bs[i], Shl(v, r))]) == Blend(Bits(bs), offset, ToBits(v, 8 - r))
  {
    hide Bits, Bit, Shl, OrByte;
    var i, r := offset / 8, offset % 8;
    OrByteBlends(bs, i, Shl(v, r));
    var lhs, rhs := Blend(Bits(bs), 8 * i, ToBits(Shl(v, r), 8)), Blend(Bits(bs), offset, ToBits(v, 8 - r));
    assert lhs == rhs;
  }

  /** Every further byte receives the next eight bits. */
  lemma ScatterNext(bs: seq<byte>, d: seq<bool>, offset: nat, x: u64, m: nat, i: nat)
    requires i < |bs| && 8 * i == offset + m && |d| == 8 * |bs|
    requires Bits(bs) == Blend(d, offset, ToBits(x, m))
    ensures Bits(bs[i := OrByte(bs[i], CheckedShr(x, m))]) == Blend(d, offset, ToBits(x, m + 8))
  {
    hide Bits, Bit, CheckedShr, OrByte, Blend;
    OrByteBlends(bs, i, CheckedShr(x, m));
    BlendTwice(d, offset, ToBits(x, m), ToBits(CheckedShr(x, m), 8));
    ToBitsSplit(x, m);
  }

  lemma ToBitsSplit(x: u64, m: nat)
    ensures ToBits(x, m) + ToBits(CheckedShr(x, m), 8) == ToBits(x, m + 8)
  {
    hide Bit, CheckedShr;
    WordHasNoHighBits(x);
    forall k: nat | m <= k < m + 8
      ensures Bit(CheckedShr(x, m), k - m) == Bit(x, k)
    {
      assert k - m + m == k;
    }
  }

  /** The bits of `x` above its `n` low ones are zero and change nothing. */
  lemma ScatterEnd(d: seq<bool>, offset: nat, x: u64, n: nat, m: nat)
    requires x < Pow2(n) && n <= m && offset + m <= |d|
    ensures Blend(d, offset, ToBits(x, m)) == Blend(d, offset, ToBits(x, n))
  {
    hide Bit;
    var lhs, rhs := Blend(d, offset, ToBits(x, m)), Blend(d, offset, ToBits(x, n));
    forall k: nat | k < |d|
      ensures lhs[k] == rhs[k]
    {
      if offset + n <= k {
        HighBitsZero(x, n, k - offset);
      }
    }
  }

  /** The value packed into byte `k` is the byte. */
  lemma ByteInStream(bs: seq<byte>, k: nat)
    requires k < |bs|
    ensures PackedAt(Bits(bs), 8 * k, 8) == bs[k]
  {
    hide Bits, ToBits, FromBits;
    BitsSlice(bs, k, k + 1);
    assert bs[k..k + 1] == [bs[k]];
    ByteBits(bs[k]);
    FromToByte(bs[k]);
    assert 8 * (k + 1) == 8 * k + 8;
  }

  lemma TailByte(buffer: seq<byte>, total: nat, q: nat, tail: seq<byte>, n: nat)
    requires total <= |buffer| && q % 8 == 0 && q + 8 * |tail| == 8 * total && n < |tail|
    requires tail == buffer[q / 8..total]
    ensures q + 8 * n + 8 <= |Bits(buffer[..total])| && PackedAt(Bits(buffer[..total]), q + 8 * n, 8) == tail[n]
  {
    hide Bits, PackedAt;
    ByteInStream(buffer[..total], q / 8 + n);
  }

  lemma RoundUpAligned(p: nat)
    ensures RoundUp(p) % 8 == 0
    ensures p % 8 == 0 ==> RoundUp(p) == p
  {
  }

  lemma FoldStart(bs: seq<byte>)
    ensures VlqFold(bs[..0]) == 0 && Continued(bs, 0)
  {
  }

  lemma FoldNext(bs: seq<byte>, n: nat)
    requires n < |bs|
    ensures VlqFold(bs[..n + 1]) == Or(VlqFold(bs[..n]), WrappingShl(And(bs[n], 0x7F), 7 * n))
  {
    assert bs[..n + 1][..n] == bs[..n];
  }

  /** The first `n` bytes are continuation bytes. */
  ghost predicate Continued(bs: seq<byte>, n: nat) {
    n <= |bs| && forall i :: 0 <= i < n ==> bs[i] >= 128
  }

  lemma ContinuedNext(bs: seq<byte>, n: nat)
    requires Continued(bs, n)
    ensures n == |bs| ==> VlqLength(bs) == None
    ensures n < |bs| && bs[n] < 128 ==> VlqLength(bs) == Some(n + 1)
    ensures n < |bs| && bs[n] >= 128 ==> Continued(bs, n + 1)
  {
    hide VlqLength;
    LengthFrom(bs, n);
  }

  /** After `n` continuation bytes the group ends at the next one, or nowhere. */
  lemma LengthFrom(bs: seq<byte>, n: nat)
    requires n <= |bs| && forall i :: 0 <= i < n ==> bs[i] >= 128
    ensures n == |bs| ==> VlqLength(bs) == None
    ensures n < |bs| && bs[n] < 128 ==> VlqLength(bs) == Some(n + 1)
  {
    hide VlqLength;
    var rest := bs[n..];
    LengthAfterContinuations(bs[..n], rest);
    assert bs[..n] + rest == bs;
    LengthHead(rest);
  }

  lemma LengthHead(bs: seq<byte>)
    ensures bs == [] ==> VlqLength(bs) == None
    ensures bs != [] && bs[0] < 128 ==> VlqLength(bs) == Some(1)
  {
  }

  lemma NextByte(byteOffset: nat, bitOffset: nat)
    ensures RoundUp(8 * byteOffset + bitOffset) == 8 * (byteOffset + (bitOffset + 7) / 8)
  {
  }

  /** Byte-aligned bits at bit `k` of the cached word, where `k` may be just behind it. */
  lemma AlignedIsPacked(s: seq<bool>, p: nat, k: nat, n: nat)
    requires k + n <= 64 && p + k + n <= |s|
    ensures TrailingBits(WrappingShr(WordAt(s, p), k), n) == PackedAt(s, p + k, n)
  {
    hide WordAt, Shr, TrailingBits;
    if k < 64 {
      TrailingIsPacked(s, p, k, n);
    } else {
      PackedNothing(s, p + k, WrappingShr(WordAt(s, p), k));
    }
  }

  lemma PackedNothing(s: seq<bool>, p: nat, w: u64)
    requires p <= |s|
    ensures PackedAt(s, p, 0) == 0 == TrailingBits(w, 0)
  {
  }
}
