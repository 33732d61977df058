/**
  `unpack32`: thirty-two values of one width from consecutive 32-bit words. The source writes
  one unrolled body per width; value `k` of each is the expression below at bit `k * numBits`.
 */
module BitPacking {
  import opened Words
  import opened BitStream

  /** The 32-bit word at index `i`, little endian, read unaligned. */
  function Word32(src: seq<byte>, i: nat): u64
    requires 4 * i + 4 <= |src|
  {
    var x := LittleEndian(src[4 * i..4 * i + 4]);
    LittleEndianBits(src[4 * i..4 * i + 4]);
    FromBitsBound(Bits(src[4 * i..4 * i + 4]));
    Pow2Is64();
    x
  }

  lemma Word32Bits(src: seq<byte>, i: nat, b: nat)
    requires 4 * i + 4 <= |src|
    ensures Bit(Word32(src, i), b) == (b < 32 && Bits(src)[32 * i + b])
  {
    LittleEndianBits(src[4 * i..4 * i + 4]);
    BitFromBits(Bits(src[4 * i..4 * i + 4]), b);
    BitsSlice(src, 4 * i, 4 * i + 4);
  }

  /** One value: from one word, or stitched from two. */
  function UnpackAt(src: seq<byte>, pos: nat, numBits: nat): u64
    requires 0 < numBits <= 32 && |src| % 4 == 0 && pos + numBits <= 8 * |src|
  {
    var i, shift := pos / 32, pos % 32;
    if shift + numBits <= 32 then
      TrailingBits(Shr(Word32(src, i), shift), numBits)
    else
      var rem := shift + numBits - 32;
      Or(Shr(Word32(src, i), shift), Shl(TrailingBits(Word32(src, i + 1), rem), numBits - rem))
  }

  /** `w` holds the 32 stream bits from `p`. */
  ghost predicate Holds(w: u64, s: seq<bool>, p: nat)
    requires p + 32 <= |s|
  {
    forall b: nat :: Bit(w, b) == (b < 32 && s[p + b])
  }

  lemma OneWord(w: u64, s: seq<bool>, p: nat, shift: nat, n: nat)
    requires p + 32 <= |s| && Holds(w, s, p) && shift + n <= 32
    ensures TrailingBits(Shr(w, shift), n) == PackedAt(s, p + shift, n)
  {
    hide Bit, Shr, TrailingBits, PackedAt;
    WordIsPacked(s, p + shift, n, TrailingBits(Shr(w, shift), n));
  }

  lemma TwoWords(w: u64, w2: u64, s: seq<bool>, p: nat, shift: nat, n: nat)
    requires p + 64 <= |s| && Holds(w, s, p) && Holds(w2, s, p + 32)
    requires shift < 32 && n <= 32 < shift + n
    ensures var rem := shift + n - 32;
            Or(Shr(w, shift), Shl(TrailingBits(w2, rem), n - rem)) == PackedAt(s, p + shift, n)
  {
    hide Bit, Shl, Shr, Or, TrailingBits, PackedAt;
    var rem := shift + n - 32;
    var x := Or(Shr(w, shift), Shl(TrailingBits(w2, rem), n - rem));
    forall b: nat | b < 64
      ensures Bit(x, b) == (b < n && s[p + shift + b])
    {
      if 32 - shift <= b {
        assert Bit(Shl(TrailingBits(w2, rem), n - rem), b) == Bit(TrailingBits(w2, rem), b - (n - rem));
      }
    }
    WordIsPacked(s, p + shift, n, x);
  }

  lemma Word32Holds(src: seq<byte>, i: nat)
    requires 4 * i + 4 <= |src|
    ensures Holds(Word32(src, i), Bits(src), 32 * i)
  {
    forall b: nat
      ensures Bit(Word32(src, i), b) == (b < 32 && Bits(src)[32 * i + b])
    {
      Word32Bits(src, i, b);
    }
  }

  lemma UnpackAtIsPacked(src: seq<byte>, pos: nat, numBits: nat)
    requires 0 < numBits <= 32 && |src| % 4 == 0 && pos + numBits <= 8 * |src|
    ensures UnpackAt(src, pos, numBits) == PackedAt(Bits(src), pos, numBits)
  {
    hide Bits, Holds, Word32, PackedAt, Shr, Shl, Or, TrailingBits;
    var i, shift := pos / 32, pos % 32;
    Word32Holds(src, i);
    if shift + numBits <= 32 {
      OneWord(Word32(src, i), Bits(src), 32 * i, shift, numBits);
    } else {
      Word32Holds(src, i + 1);
      TwoWords(Word32(src, i), Word32(src, i + 1), Bits(src), 32 * i, shift, numBits);
    }
  }

  /** Unpacks 32 values from the first `4 * numBits` bytes of `src`. */
  method Unpack32(src: seq<byte>, numBits: nat) returns (out: seq<u64>)
    requires numBits <= 32 && |src| == 4 * numBits
    ensures |out| == 32 && out == PackedRun(Bits(src), 0, numBits, 32)
  {
    hide Bits, UnpackAt, PackedAt, UnpackOrZero, PackedRun;
    PackedRunLength(Bits(src), 0, numBits, 32);
    out := [];
    var pos: nat := 0;
    ghost var run := PackedRun(Bits(src), 0, numBits, 32);
    for k := 0 to 32
      invariant |out| == k && pos <= 8 * |src|
      invariant |PackedRun(Bits(src), pos, numBits, 32 - k)| == 32 - k
      invariant out + PackedRun(Bits(src), pos, numBits, 32 - k) == run
    {
      PackedRunStep(Bits(src), pos, numBits, 32 - k);
      out := out + [UnpackOrZero(src, pos, numBits)];
      pos := pos + numBits;
    }
  }

  /** Width 0 stores zeros without reading. */
  function UnpackOrZero(src: seq<byte>, pos: nat, numBits: nat): (x: u64)
    requires numBits <= 32 && |src| % 4 == 0 && pos + numBits <= 8 * |src|
    ensures x == PackedAt(Bits(src), pos, numBits)
  {
    if numBits == 0 then 0
    else
      UnpackAtIsPacked(src, pos, numBits);
      UnpackAt(src, pos, numBits)
  }
}
