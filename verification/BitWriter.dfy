/** The bit packing writer: a byte buffer filled through a 64-bit staging word. */
module BitWriting {
  import opened Words
  import opened BitStream
  import opened Wrappers
  import opened Vlq

  // ----- the staging word

  /** The staged word: bits of `w` below `k`, bits of `v` from there. */
  lemma StagedBit(w: u64, k: nat, v: u64, i: nat)
    requires w < Pow2(k) && k < 64 && i < 64
    ensures Bit(Or(w, Shl(v, k)), i) == if i < k then Bit(w, i) else Bit(v, i - k)
  {
    hide Bit, Or, Shl, Pow2;
    if k <= i {
      HighBitsZero(w, k, i);
    }
  }

  /** Staging `n` bits of `v` behind `k` staged bits concatenates them. */
  lemma StageFits(w: u64, k: nat, v: u64, n: nat)
    requires w < Pow2(k) && k < 64 && k + n <= 64
    ensures ToBits(Or(w, Shl(v, k)), k + n) == ToBits(w, k) + ToBits(v, n)
  {
    hide Bit, Or, Shl, Pow2;
    forall i: nat | i < k + n
      ensures Bit(Or(w, Shl(v, k)), i) == if i < k then Bit(w, i) else Bit(v, i - k)
    {
      StagedBit(w, k, v, i);
    }
  }

  /** When the staging word fills up, the bits that do not fit start the next word. */
  lemma StageSpills(w: u64, k: nat, v: u64, n: nat)
    requires w < Pow2(k) && k < 64 && n <= 64 <= k + n
    ensures ToBits(Or(w, Shl(v, k)), 64) + ToBits(CheckedShr(v, 64 - k), k + n - 64) == ToBits(w, k) + ToBits(v, n)
  {
    hide Bit, Or, Shl, CheckedShr, Pow2;
    StageFits(w, k, v, 64 - k);
    SpilledBits(v, 64 - k, k + n - 64);
    Reassociate(ToBits(w, k), ToBits(v, 64 - k), ToBits(CheckedShr(v, 64 - k), k + n - 64));
  }

  lemma SpilledBits(v: u64, m: nat, n: nat)
    ensures ToBits(v, m) + ToBits(CheckedShr(v, m), n) == ToBits(v, m + n)
  {
    hide Bit, CheckedShr;
    WordHasNoHighBits(v);
    forall i: nat | m <= i < m + n
      ensures Bit(CheckedShr(v, m), i - m) == Bit(v, i)
    {
      assert i - m + m == i;
    }
  }

  lemma Reassociate<T>(a: seq<T>, b: seq<T>, c: seq<T>)
    ensures (a + b) + c == a + (b + c)
  {
  }

  /** `v` has no bit from `n` up to `m`. */
  ghost predicate Clean(v: u64, n: nat, m: nat) {
    forall i: nat :: n <= i < m ==> !Bit(v, i)
  }

  lemma CleanBelow(v: u64, n: nat, m: nat)
    requires v < Pow2(n)
    ensures Clean(v, n, m)
  {
    forall i: nat | n <= i < m
      ensures !Bit(v, i)
    {
      HighBitsZero(v, n, i);
    }
  }

  lemma BelowIsClean(v: u64, n: nat)
    ensures v < Pow2(n) <==> Clean(v, n, 64)
  {
    hide Bit, Pow2;
    if Clean(v, n, 64) {
      assert v < Pow2(64) by {
        Pow2Is64();
      }
      BelowFromBits(v, n, 64);
    } else if v < Pow2(n) {
      CleanBelow(v, n, 64);
    }
  }

  /** The staging word stays clean exactly when the value has no bit above its width that is kept. */
  lemma StageFitsWord(w: u64, k: nat, v: u64, n: nat)
    requires w < Pow2(k) && k + n < 64
    ensures Or(w, Shl(v, k)) < Pow2(k + n) <==> Clean(v, n, 64 - k)
  {
    hide Bit, Or, Shl, Pow2;
    var x := Or(w, Shl(v, k));
    BelowIsClean(x, k + n);
    forall i: nat | i < 64
      ensures Bit(x, i) == if i < k then Bit(w, i) else Bit(v, i - k)
    {
      StagedBit(w, k, v, i);
    }
    if Clean(x, k + n, 64) {
      forall i: nat | n <= i < 64 - k
        ensures !Bit(v, i)
      {
        assert !Bit(x, k + i);
      }
    }
  }

  lemma StageSpillsWord(w: u64, k: nat, v: u64, n: nat)
    requires k < 64 && n <= 64 <= k + n
    ensures CheckedShr(v, 64 - k) < Pow2(k + n - 64) <==> Clean(v, n, 64)
  {
    hide Bit, CheckedShr, Pow2;
    var y := CheckedShr(v, 64 - k);
    BelowIsClean(y, k + n - 64);
    WordHasNoHighBits(v);
    if Clean(y, k + n - 64, 64) {
      forall i: nat | n <= i < 64
        ensures !Bit(v, i)
      {
        assert !Bit(y, i - (64 - k));
      }
    }
  }

  /**
    Further values are staged right, whatever they are, exactly when the staging word holds
    nothing above its `k` low bits.
   */
  lemma StagingIsRightExactlyWhen(w: u64, k: nat)
    requires k < 64
    ensures (forall v: u64, n: nat :: v < Pow2(n) && k + n <= 64 ==>
               ToBits(Or(w, Shl(v, k)), k + n) == ToBits(w, k) + ToBits(v, n))
            <==> w < Pow2(k)
  {
    hide Bit, Or, Shl, Pow2;
    if w < Pow2(k) {
      forall v: u64, n: nat | v < Pow2(n) && k + n <= 64
        ensures ToBits(Or(w, Shl(v, k)), k + n) == ToBits(w, k) + ToBits(v, n)
      {
        StageFits(w, k, v, n);
      }
    } else {
      BelowIsClean(w, k);
      var i: nat :| k <= i < 64 && Bit(w, i);
      var n := 64 - k;
      ZeroHasNoBits();
      assert 0 < Pow2(n);
      assert ToBits(Or(w, Shl(0, k)), k + n)[i] != (ToBits(w, k) + ToBits(0, n))[i];
    }
  }

  /** Writing out the staged bytes pads the staged bits with zeros. */
  lemma StageFlushes(s: seq<bool>, w: u64, k: nat)
    requires w < Pow2(k) && |s| % 8 == 0
    ensures Pad(s + ToBits(w, k)) == s + ToBits(w, (k + 7) / 8 * 8)
  {
    hide Bit, Pow2;
    var m := (k + 7) / 8 * 8;
    PadAfterAligned(s, ToBits(w, k), m);
    forall i: nat | k <= i < m
      ensures !Bit(w, i)
    {
      HighBitsZero(w, k, i);
    }
    assert ToBits(w, k) + Zeros(m - k) == ToBits(w, m);
  }

  lemma PadAfterAligned(s: seq<bool>, t: seq<bool>, m: nat)
    requires |s| % 8 == 0 && m == (|t| + 7) / 8 * 8
    ensures Pad(s + t) == s + (t + Zeros(m - |t|))
  {
    assert RoundUp(|s| + |t|) == |s| + m;
    assert s + t + Zeros(m - |t|) == s + (t + Zeros(m - |t|));
  }

  /** The bits written when `n` bytes of `b` are complete and `k` bits of `w` are staged. */
  ghost function Written(b: seq<byte>, n: nat, w: u64, k: nat): (s: seq<bool>)
    requires n <= |b|
    ensures |s| == 8 * n + k
  {
    Bits(b[..n]) + ToBits(w, k)
  }

  lemma WrittenAligned(b: seq<byte>, n: nat, w: u64)
    requires n <= |b|
    ensures Written(b, n, w, 0) == Bits(b[..n])
  {
  }

  /** Writing `m` bytes of `w` at `n` appends their bits to the complete bytes. */
  lemma OverwriteAppends(b: seq<byte>, n: nat, w: u64, m: nat)
    requires n + m <= |b|
    ensures var b' := Overwrite(b, n, LeBytes(w, m));
            && Bits(b'[..n + m]) == Bits(b[..n]) + ToBits(w, 8 * m)
            && b'[n + m..] == b[n + m..]
  {
    var b' := Overwrite(b, n, LeBytes(w, m));
    assert b'[..n + m] == b[..n] + LeBytes(w, m);
    BitsConcat(b[..n], LeBytes(w, m));
    BitsOfLeBytes(w, m);
  }

  lemma FlushWritten(b: seq<byte>, n: nat, w: u64, k: nat)
    requires w < Pow2(k) && n + (k + 7) / 8 <= |b|
    ensures var m := (k + 7) / 8;
            Written(Overwrite(b, n, LeBytes(w, m)), n + m, 0, 0) == Pad(Written(b, n, w, k))
  {
    var m := (k + 7) / 8;
    OverwriteAppends(b, n, w, m);
    StageFlushes(Bits(b[..n]), w, k);
    WrittenAligned(Overwrite(b, n, LeBytes(w, m)), n + m, 0);
  }

  lemma SpillWritten(b: seq<byte>, n: nat, w: u64, k: nat, v: u64, j: nat)
    requires w < Pow2(k) && k < 64 && j <= 64 <= k + j && n + 8 <= |b|
    ensures var x := Or(w, Shl(v, k));
            Written(Overwrite(b, n, LeBytes(x, 8)), n + 8, CheckedShr(v, 64 - k), k + j - 64)
            == Written(b, n, w, k) + ToBits(v, j)
  {
    hide Bits, ToBits, LeBytes, Overwrite, Or, Shl, CheckedShr, Pow2;
    var x := Or(w, Shl(v, k));
    var y := CheckedShr(v, 64 - k);
    OverwriteAppends(b, n, x, 8);
    StageSpills(w, k, v, j);
    Regroup(Bits(b[..n]), ToBits(x, 64), ToBits(y, k + j - 64), ToBits(w, k), ToBits(v, j));
  }

  lemma Regroup<T>(s: seq<T>, a: seq<T>, b: seq<T>, c: seq<T>, d: seq<T>)
    requires a + b == c + d
    ensures (s + a) + b == (s + c) + d
  {
    assert (s + a) + b == s + (a + b);
    assert (s + c) + d == s + (c + d);
  }

  lemma FitWritten(b: seq<byte>, n: nat, w: u64, k: nat, v: u64, j: nat)
    requires w < Pow2(k) && k + j < 64 && n <= |b|
    ensures Written(b, n, Or(w, Shl(v, k)), k + j) == Written(b, n, w, k) + ToBits(v, j)
  {
    hide Bits, ToBits, Or, Shl, Pow2;
    StageFits(w, k, v, j);
    Reassociate(Bits(b[..n]), ToBits(w, k), ToBits(v, j));
  }

  /** Jumping over `m` bytes appends what they hold. */
  lemma SkipWritten(b: seq<byte>, n: nat, m: nat)
    requires n + m <= |b|
    ensures Written(b, n + m, 0, 0) == Written(b, n, 0, 0) + Bits(b[n..n + m])
  {
    WrittenAligned(b, n, 0);
    WrittenAligned(b, n + m, 0);
    assert b[..n + m] == b[..n] + b[n..n + m];
    BitsConcat(b[..n], b[n..n + m]);
  }

  lemma ClearWritten(b: seq<byte>, start: nat, n: nat, w: u64, k: nat)
    requires start <= n <= |b|
    ensures Written(b, start, 0, 0) == Written(b, n, w, k)[..8 * start]
  {
    WrittenAligned(b, start, 0);
    BitsSlice(b[..n], 0, start);
    assert b[..n][0..start] == b[..start];
  }

  /** Filling the `m` bytes before `n` replaces their bits. */
  lemma FillWritten(b: seq<byte>, at: nat, v: u64, m: nat, n: nat, w: u64, k: nat)
    requires at + m <= n <= |b|
    ensures var s := Written(b, n, w, k);
            Written(Overwrite(b, at, LeBytes(v, m)), n, w, k) == s[..8 * at] + ToBits(v, 8 * m) + s[8 * (at + m)..]
  {
    hide Written, Bits, ToBits, LeBytes;
    var b' := Overwrite(b, at, LeBytes(v, m));
    WrittenSplit(b, at, m, n, w, k);
    WrittenSplit(b', at, m, n, w, k);
    assert b'[..at] == b[..at] && b'[at..at + m] == LeBytes(v, m) && b'[at + m..n] == b[at + m..n];
    BitsOfLeBytes(v, m);
    Splice(Bits(b[..at]), Bits(b[at..at + m]), Bits(b[at + m..n]) + ToBits(w, k), ToBits(v, 8 * m));
  }

  lemma WrittenSplit(b: seq<byte>, at: nat, m: nat, n: nat, w: u64, k: nat)
    requires at + m <= n <= |b|
    ensures Written(b, n, w, k) == Bits(b[..at]) + Bits(b[at..at + m]) + (Bits(b[at + m..n]) + ToBits(w, k))
  {
    var x, y := b[at..at + m], b[at + m..n];
    assert b[..n] == (b[..at] + x) + y;
    BitsConcat(b[..at], x);
    BitsConcat(b[..at] + x, y);
  }

  lemma SameSlice<T>(a: seq<T>, b: seq<T>, i: nat, j: nat)
    requires i <= j <= |a| == |b| && a[i..] == b[i..]
    ensures a[i..j] == b[i..j]
  {
    assert a[i..j] == a[i..][..j - i];
    assert b[i..j] == b[i..][..j - i];
  }

  /** Replacing the middle part of a sequence. */
  lemma Splice<T>(a: seq<T>, hole: seq<T>, c: seq<T>, t: seq<T>)
    ensures (a + hole + c)[..|a|] + t + (a + hole + c)[|a| + |hole|..] == a + t + c
  {
  }

  /** The stream after `n` groups of `bs`, when only `room` bytes are left behind `p`. */
  ghost function Groups(p: seq<bool>, bs: seq<byte>, n: nat, room: nat): (s: seq<bool>)
    requires n <= |bs|
    ensures |s| == |p| + 8 * (if n <= room then n else room)
  {
    p + Bits(bs[..if n <= room then n else room])
  }

  lemma GroupsStart(p: seq<bool>, bs: seq<byte>, room: nat)
    ensures Groups(p, bs, 0, room) == p
  {
  }

  /** What one turn of the encoding loop adds. */
  lemma NextGroup(p: seq<bool>, bs: seq<byte>, n: nat, room: nat, rest: u64)
    requires |p| % 8 == 0 && n <= |bs| && bs[n..] == VlqBytes(rest)
    ensures n < |bs|
    ensures var b := if rest < 128 then rest else rest % 128 + 128;
            Groups(p, bs, n + 1, room) == Groups(p, bs, n, room) + if n < room then ToBits(b, 8) else []
    ensures rest < 128 ==> n + 1 == |bs|
    ensures rest >= 128 ==> bs[n + 1..] == VlqBytes(rest / 128)
    ensures Pad(Groups(p, bs, n + 1, room)) == Groups(p, bs, n + 1, room)
  {
    VlqStep(bs[n..], rest);
    assert bs[n] == bs[n..][0];
    assert bs[n + 1..] == bs[n..][1..];
    if n < room {
      assert bs[..n + 1] == bs[..n] + [bs[n]];
      BitsConcat(bs[..n], [bs[n]]);
      ByteBits(bs[n]);
    }
    PadAligned(Groups(p, bs, n + 1, room));
  }

  lemma PaddedLength(s: seq<bool>, n: nat, k: nat)
    requires |s| == 8 * n + k
    ensures |Pad(s)| == 8 * (n + (k + 7) / 8)
  {
  }

  lemma PadAligned(s: seq<bool>)
    requires |s| % 8 == 0
    ensures Pad(s) == s
  {
  }

  lemma VlqStep(bs: seq<byte>, rest: u64)
    requires bs == VlqBytes(rest)
    ensures bs[0] == if rest < 128 then rest else rest % 128 + 128
    ensures rest < 128 ==> |bs| == 1
    ensures rest >= 128 ==> bs[1..] == VlqBytes(rest / 128)
  {
  }

  class BitWriter {
    var buffer: array<byte>
    var maxBytes: nat
    var bufferedValues: u64
    var byteOffset: nat
    var bitOffset: nat
    const start: nat

    /** All bits fit. */
    ghost predicate Shaped()
      reads this
    {
      && maxBytes == buffer.Length
      && start <= byteOffset
      && bitOffset < 64
      && 8 * byteOffset + bitOffset <= 8 * maxBytes
    }

    /** All bits fit, and the staging word holds nothing above its `bitOffset` low bits. */
    ghost predicate Valid()
      reads this
    {
      Shaped() && bufferedValues < Pow2(bitOffset)
    }

    /** Everything written so far, as bits. */
    ghost function Contents(): (s: seq<bool>)
      reads this, buffer
      requires Shaped()
      ensures |s| == 8 * byteOffset + bitOffset
    {
      Written(buffer[..], byteOffset, bufferedValues, bitOffset)
    }

    constructor (maxBytes: nat)
      ensures Valid() && fresh(buffer)
      ensures this.maxBytes == maxBytes && start == 0 && Contents() == []
    {
      buffer := new byte[maxBytes](i => 0);
      this.maxBytes := maxBytes;
      bufferedValues, byteOffset, bitOffset, start := 0, 0, 0, 0;
    }

    constructor FromBuf(bytes: seq<byte>, start: nat)
      requires start <= |bytes|
      ensures Valid() && fresh(buffer)
      ensures maxBytes == |bytes| && this.start == start && Contents() == Bits(bytes[..start])
    {
      buffer := new byte[|bytes|](i requires 0 <= i < |bytes| => bytes[i]);
      maxBytes := |bytes|;
      bufferedValues, byteOffset, bitOffset := 0, start, 0;
      this.start := start;
      new;
      assert buffer[..start] == bytes[..start];
    }

    method Extend(increment: nat)
      requires Valid()
      modifies this
      ensures Valid() && fresh(buffer)
      ensures maxBytes == old(maxBytes) + increment && Contents() == old(Contents())
    {
      var grown := new byte[maxBytes + increment](i requires 0 <= i < maxBytes + increment reads this, buffer =>
        if i < buffer.Length then buffer[i] else 0);
      assert grown[..byteOffset] == buffer[..byteOffset];
      maxBytes := maxBytes + increment;
      buffer := grown;
    }

    /** Writes the staged bytes out and moves to the next byte boundary. */
    method Flush()
      requires Valid()
      modifies this, buffer
      ensures Valid() && buffer == old(buffer) && maxBytes == old(maxBytes) && byteOffset >= old(byteOffset)
      ensures bitOffset == 0 && Contents() == Pad(old(Contents()))
      ensures buffer[..][byteOffset..] == old(buffer[..])[byteOffset..]
    {
      var numBytes := (bitOffset + 7) / 8;
      FlushWritten(buffer[..], byteOffset, bufferedValues, bitOffset);
      OverwriteAppends(buffer[..], byteOffset, bufferedValues, numBytes);
      Memcpy(LeBytes(bufferedValues, numBytes), buffer, byteOffset);
      bufferedValues := 0;
      bitOffset := 0;
      byteOffset := byteOffset + numBytes;
    }

    /**
      Flushes, then jumps over `numBytes` bytes, which keep what the buffer held.
      Refuses (after flushing) exactly when they do not fit.
     */
    method Skip(numBytes: nat) returns (r: Option<nat>)
      requires Valid()
      modifies this, buffer
      ensures Valid() && buffer == old(buffer) && maxBytes == old(maxBytes) && byteOffset >= old(byteOffset)
      ensures var p := Pad(old(Contents()));
              if |p| + 8 * numBytes <= 8 * maxBytes then
                && r == Some(|p| / 8)
                && bitOffset == 0
                && Contents() == p + Bits(old(buffer[..])[|p| / 8..|p| / 8 + numBytes])
              else
                r.None? && Contents() == p
    {
      hide Written, Bits, ToBits, RoundUp, Pad;
      ghost var b := buffer[..];
      Flush();
      if byteOffset + numBytes > maxBytes {
        return None;
      }
      var result := byteOffset;
      SkipWritten(buffer[..], byteOffset, numBytes);
      SameSlice(buffer[..], b, byteOffset, byteOffset + numBytes);
      byteOffset := byteOffset + numBytes;
      return Some(result);
    }

    /**
      Packs the `numBits` low bits of `v`. Refuses, changing nothing, exactly when they do not
      fit in the buffer. A value with bits above its width, which only debug builds reject, is
      packed as well; it leaves the writer valid exactly when those bits fall out of the staging
      word.
     */
    method PutValue(v: u64, numBits: nat) returns (ok: bool)
      requires Valid() && numBits <= 64
      modifies this, buffer
      ensures Shaped() && buffer == old(buffer) && maxBytes == old(maxBytes) && byteOffset >= old(byteOffset)
      ensures ok == (|old(Contents())| + numBits <= 8 * maxBytes)
      ensures Contents() == if ok then old(Contents()) + ToBits(v, numBits) else old(Contents())
      ensures !ok ==> unchanged(this) && buffer[..] == old(buffer[..])
      ensures var k := old(bitOffset);
              ok ==> (Valid() <==> Clean(v, numBits, if k + numBits < 64 then 64 - k else 64))
      ensures v < Pow2(numBits) ==> Valid()
    {
      hide Written, Bits, ToBits, LeBytes, Pow2, Or, Shl, CheckedShr, Overwrite, Clean;
      if byteOffset * 8 + bitOffset + numBits > maxBytes * 8 {
        return false;
      }
      if v < Pow2(numBits) {
        CleanBelow(v, numBits, 64);
        CleanBelow(v, numBits, 64 - bitOffset);
      }
      if bitOffset + numBits < 64 {
        Stage(v, numBits);
      } else {
        Spill(v, numBits);
      }
      return true;
    }

    /** The part of `PutValue` for a value that fits in the staging word. */
    method Stage(v: u64, numBits: nat)
      requires Valid() && bitOffset + numBits < 64 && 8 * byteOffset + bitOffset + numBits <= 8 * maxBytes
      modifies this`bufferedValues, this`bitOffset
      ensures Shaped() && Contents() == old(Contents()) + ToBits(v, numBits)
      ensures Valid() <==> Clean(v, numBits, 64 - old(bitOffset))
    {
      hide Written, Bits, ToBits, Pow2, Or, Shl, Clean;
      FitWritten(buffer[..], byteOffset, bufferedValues, bitOffset, v, numBits);
      StageFitsWord(bufferedValues, bitOffset, v, numBits);
      bufferedValues := Or(bufferedValues, Shl(v, bitOffset));
      bitOffset := bitOffset + numBits;
    }

    /** The part of `PutValue` that writes the filled staging word out and starts the next. */
    method Spill(v: u64, numBits: nat)
      requires Valid() && numBits <= 64 <= bitOffset + numBits && 8 * byteOffset + bitOffset + numBits <= 8 * maxBytes
      modifies this`bufferedValues, this`bitOffset, this`byteOffset, buffer
      ensures Shaped() && byteOffset == old(byteOffset) + 8
      ensures Contents() == old(Contents()) + ToBits(v, numBits)
      ensures Valid() <==> Clean(v, numBits, 64)
    {
      hide Written, Bits, ToBits, LeBytes, Pow2, Or, Shl, CheckedShr, Overwrite, Clean;
      SpillWritten(buffer[..], byteOffset, bufferedValues, bitOffset, v, numBits);
      StageSpillsWord(bufferedValues, bitOffset, v, numBits);
      var filled := Or(bufferedValues, Shl(v, bitOffset));
      Memcpy(LeBytes(filled, 8), buffer, byteOffset);
      byteOffset := byteOffset + 8;
      bitOffset := bitOffset + numBits - 64;
      bufferedValues := CheckedShr(v, numBits - bitOffset);
    }

    /** Writes the `numBytes` low bytes of `v` at the next byte boundary. */
    method PutAligned(v: u64, numBytes: nat) returns (ok: bool)
      requires Valid() && numBytes <= 8
      modifies this, buffer
      ensures Valid() && buffer == old(buffer) && maxBytes == old(maxBytes) && byteOffset >= old(byteOffset)
      ensures ok == (|Pad(old(Contents()))| + 8 * numBytes <= 8 * maxBytes)
      ensures Contents() == Pad(old(Contents())) + if ok then ToBits(v, 8 * numBytes) else []
      ensures ok ==> bitOffset == 0
    {
      var r := Skip(numBytes);
      if r.None? {
        return false;
      }
      FillWritten(buffer[..], r.value, v, numBytes, byteOffset, bufferedValues, bitOffset);
      Memcpy(LeBytes(v, numBytes), buffer, r.value);
      return true;
    }

    /** Overwrites `numBytes` bytes at `offset`; what is already flushed there is replaced. */
    method PutAlignedOffset(v: u64, numBytes: nat, offset: nat) returns (ok: bool)
      requires Valid() && numBytes <= 8
      modifies buffer
      ensures Valid()
      ensures ok == (numBytes + offset <= maxBytes)
      ensures buffer[..] == if ok then Overwrite(old(buffer[..]), offset, LeBytes(v, numBytes)) else old(buffer[..])
      ensures ok && offset + numBytes <= byteOffset ==>
                var s := old(Contents());
                Contents() == s[..8 * offset] + ToBits(v, 8 * numBytes) + s[8 * (offset + numBytes)..]
    {
      if numBytes + offset > maxBytes {
        return false;
      }
      if offset + numBytes <= byteOffset {
        FillWritten(buffer[..], offset, v, numBytes, byteOffset, bufferedValues, bitOffset);
      }
      Memcpy(LeBytes(v, numBytes), buffer, offset);
      return true;
    }

    /**
      Writes the base-128 groups of `v` at the next byte boundary. When the buffer is too
      short, the groups that fit stay written.
     */
    method PutVlqInt(v: u64) returns (ok: bool)
      requires Valid()
      modifies this, buffer
      ensures Valid() && buffer == old(buffer) && maxBytes == old(maxBytes) && byteOffset >= old(byteOffset)
      ensures var p, bs := Pad(old(Contents())), VlqBytes(v);
              var room := maxBytes - |p| / 8;
              && ok == (|bs| <= room)
              && Contents() == p + Bits(if ok then bs else bs[..room])
    {
      hide Written, Bits, ToBits, Pad, VlqBytes, Pow2, RoundUp, And, Or, Shr;
      ghost var p, bs := Pad(Contents()), VlqBytes(v);
      ghost var room := maxBytes - |p| / 8;
      ghost var n := 0;
      var rest := v;
      ok := true;
      GroupsStart(p, bs, room);
      while And(rest, 0xFFFF_FFFF_FFFF_FF80) != 0
        invariant Valid() && buffer == old(buffer) && maxBytes == old(maxBytes) && byteOffset >= old(byteOffset)
        invariant n <= |bs| && bs[n..] == VlqBytes(rest)
        invariant Pad(Contents()) == Groups(p, bs, n, room)
        invariant ok == (n <= room)
        decreases rest
      {
        MoreGroups(rest);
        LowGroup(rest);
        NextGroup(p, bs, n, room, rest);
        var done := PutAligned(Or(And(rest, 0x7F), 0x80), 1);
        ok := ok && done;
        rest := Shr(rest, 7);
        n := n + 1;
      }
      MoreGroups(rest);
      LowGroup(rest);
      NextGroup(p, bs, n, room, rest);
      var done := PutAligned(And(rest, 0x7F), 1);
      ok := ok && done;
      assert ok ==> bs[..|bs|] == bs;
    }

    method PutZigzagVlqInt(v: i64) returns (ok: bool)
      requires Valid()
      modifies this, buffer
      ensures Valid() && buffer == old(buffer) && maxBytes == old(maxBytes) && byteOffset >= old(byteOffset)
      ensures var p, bs := Pad(old(Contents())), VlqBytes(if v < 0 then -2 * v - 1 else 2 * v);
              var room := maxBytes - |p| / 8;
              && ok == (|bs| <= room)
              && Contents() == p + Bits(if ok then bs else bs[..room])
    {
      ZigzagEncodeIs(v);
      ok := PutVlqInt(ZigzagEncode(v));
    }

    method BytesWritten() returns (n: nat)
      requires Valid()
      ensures 8 * (start + n) == |Pad(Contents())|
    {
      hide Written, Pow2;
      PaddedLength(Contents(), byteOffset, bitOffset);
      n := byteOffset - start + (bitOffset + 7) / 8;
    }

    /** Forgets everything written since construction. */
    method Clear()
      requires Valid()
      modifies this
      ensures Valid() && buffer == old(buffer) && maxBytes == old(maxBytes)
      ensures Contents() == old(Contents())[..8 * start]
    {
      ClearWritten(buffer[..], start, byteOffset, bufferedValues, bitOffset);
      bufferedValues := 0;
      byteOffset := start;
      bitOffset := 0;
    }

    /** Flushes and returns the buffer up to the current offset. */
    method Consume() returns (bytes: seq<byte>)
      requires Valid()
      modifies this, buffer
      ensures Bits(bytes) == Pad(old(Contents()))
      ensures |bytes| <= maxBytes == old(maxBytes)
    {
      Flush();
      bytes := buffer[..byteOffset];
    }

    /**
      Flushes and returns `byteOffset` bytes counted from `start`; `None` stands for the
      out-of-bounds panic.
     */
    method FlushBuffer() returns (r: Option<seq<byte>>)
      requires Valid()
      modifies this, buffer
      ensures Valid() && buffer == old(buffer) && Contents() == Pad(old(Contents())) && bitOffset == 0
      ensures r == Flushed(buffer[..], start, byteOffset)
      ensures r.None? <==> start + byteOffset > buffer.Length
      ensures r.Some? ==> |r.value| == byteOffset && forall k :: 0 <= k < byteOffset ==> r.value[k] == buffer[start + k]
    {
      Flush();
      var content := buffer[..];
      if start + byteOffset > |content| {
        return None;
      }
      assert content[start..][0..byteOffset] == content[start..start + byteOffset];
      return Some(content[start..][0..byteOffset]);
    }
  }

  /** What `flush_buffer` returns from buffer `b` when `n` bytes are flushed. */
  function Flushed(b: seq<byte>, start: nat, n: nat): Option<seq<byte>> {
    if start + n > |b| then None else Some(b[start..start + n])
  }

  /**
    `flush_buffer` is documented as the borrowing form of `consume`. It returns the same bytes
    for every buffer content exactly when the writer starts at 0.
   */
  lemma FlushBufferIsConsume(len: nat, start: nat, n: nat)
    requires start <= n <= len
    ensures (forall b: seq<byte> :: |b| == len ==> Flushed(b, start, n) == Some(b[..n])) <==> start == 0
  {
    if start > 0 {
      var b: seq<byte> := seq(len, i => if i == 0 then 1 else 0);
      if start + n <= len {
        assert b[start..start + n][0] != b[..n][0];
      }
      assert Flushed(b, start, n) != Some(b[..n]);
    } else {
      forall b: seq<byte> | |b| == len
        ensures Flushed(b, start, n) == Some(b[..n])
      {
        assert b[start..start + n] == b[..n];
      }
    }
  }
}
