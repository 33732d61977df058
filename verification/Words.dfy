/**
  Machine words as natural numbers, seen through their bits.

  A word of `n` bits is a number below `Pow2(n)`; bit 0 is the least significant one.
  Only `Pow2`, `Scale` and the conversions do arithmetic; every operator on words is stated
  bit by bit.
 */
module Words {

  const TWO_TO_64: nat := 0x1_0000_0000_0000_0000

  type u64 = x: nat | x < TWO_TO_64
  type byte = x: nat | x < 256

  const TWO_TO_63: int := 0x8000_0000_0000_0000

  type i64 = x: int | -TWO_TO_63 <= x < TWO_TO_63

  /** The two's complement pattern of a signed word. */
  function Pattern(v: i64): u64 {
    if v < 0 then v + TWO_TO_64 else v
  }

  function Signed(w: u64): (v: i64)
    ensures Pattern(v) == w
  {
    if w < TWO_TO_63 then w else w - TWO_TO_64
  }

  function Pow2(n: nat): (r: nat)
    ensures r >= 1
  {
    if n == 0 then 1 else 2 * Pow2(n - 1)
  }

  /** Bit `i` of `v`. */
  predicate Bit(v: nat, i: nat) {
    if i == 0 then v % 2 == 1 else Bit(v / 2, i - 1)
  }

  /** The number whose bits, least significant first, are `s`. */
  function FromBits(s: seq<bool>): nat {
    if s == [] then 0 else (if s[0] then 1 else 0) + 2 * FromBits(s[1..])
  }

  /** The `n` low bits of `v`, least significant first. */
  function ToBits(v: nat, n: nat): (s: seq<bool>)
    ensures |s| == n
  {
    seq(n, i requires 0 <= i < n => Bit(v, i))
  }

  lemma Pow2Is64()
    ensures Pow2(64) == TWO_TO_64
    ensures Pow2(8) == 256
    ensures Pow2(32) == 0x1_0000_0000
  {
    assert Pow2(8) == 256;
    assert Pow2(16) == Scale(8, Pow2(8)) by { ScalePow2(8, 8); }
    assert Pow2(24) == Scale(8, Pow2(16)) by { ScalePow2(8, 16); }
    assert Pow2(32) == Scale(8, Pow2(24)) by { ScalePow2(8, 24); }
    assert Pow2(40) == Scale(8, Pow2(32)) by { ScalePow2(8, 32); }
    assert Pow2(48) == Scale(8, Pow2(40)) by { ScalePow2(8, 40); }
    assert Pow2(56) == Scale(8, Pow2(48)) by { ScalePow2(8, 48); }
    assert Pow2(64) == Scale(8, Pow2(56)) by { ScalePow2(8, 56); }
  }

  /** `x` times 2^n, without a product of two variables. */
  function Scale(n: nat, x: nat): nat {
    if n == 0 then x else 2 * Scale(n - 1, x)
  }

  lemma {:induction false} ScaleIsMul(n: nat, x: nat)
    ensures Scale(n, x) == x * Pow2(n)
  {
    if n != 0 {
      ScaleIsMul(n - 1, x);
    }
  }

  lemma {:induction false} ScalePow2(a: nat, b: nat)
    ensures Scale(a, Pow2(b)) == Pow2(a + b)
  {
    if a != 0 {
      ScalePow2(a - 1, b);
    }
  }

  lemma {:induction false} Pow2Monotonic(a: nat, b: nat)
    requires a <= b
    ensures Pow2(a) <= Pow2(b)
    decreases b
  {
    if a < b {
      Pow2Monotonic(a, b - 1);
    }
  }

  lemma {:induction false} FromBitsBound(s: seq<bool>)
    ensures FromBits(s) < Pow2(|s|)
  {
    if s != [] {
      FromBitsBound(s[1..]);
    }
  }

  /** The bits of the number built from `s` are those of `s`, and zero above. */
  lemma {:induction false} BitFromBits(s: seq<bool>, i: nat)
    ensures Bit(FromBits(s), i) == (i < |s| && s[i])
  {
    if s == [] {
      BitZero(i);
    } else {
      var v, r := FromBits(s), FromBits(s[1..]);
      HalfOf(v, s[0], r);
      if i != 0 {
        BitFromBits(s[1..], i - 1);
        assert Bit(v, i) == Bit(r, i - 1);
      }
    }
  }

  lemma HalfOf(v: nat, b: bool, r: nat)
    requires v == (if b then 1 else 0) + 2 * r
    ensures v / 2 == r && (v % 2 == 1) == b
  {
  }

  lemma {:induction false} BitZero(i: nat)
    ensures !Bit(0, i)
  {
    if i != 0 {
      BitZero(i - 1);
    }
  }

  /** A number below 2^n has no bit at `n` or above. */
  lemma {:induction false} HighBitsZero(v: nat, n: nat, i: nat)
    requires v < Pow2(n) && n <= i
    ensures !Bit(v, i)
    decreases i
  {
    if n == 0 {
      BitZero(i);
    } else {
      HighBitsZero(v / 2, n - 1, i - 1);
    }
  }

  /** Numbers below 2^n are equal when their `n` low bits are. */
  lemma {:induction false} BitsDetermine(a: nat, b: nat, n: nat)
    requires a < Pow2(n) && b < Pow2(n)
    requires forall i: nat :: i < n ==> Bit(a, i) == Bit(b, i)
    ensures a == b
  {
    if n != 0 {
      forall i: nat | i < n - 1
        ensures Bit(a / 2, i) == Bit(b / 2, i)
      {
        assert Bit(a, i + 1) == Bit(b, i + 1);
      }
      BitsDetermine(a / 2, b / 2, n - 1);
      assert Bit(a, 0) == Bit(b, 0);
    }
  }

  /** A number whose bits vanish from `n` on is below 2^n. */
  lemma BelowFromBits(v: nat, n: nat, m: nat)
    requires v < Pow2(m)
    requires forall i: nat :: n <= i < m ==> !Bit(v, i)
    ensures v < Pow2(n)
  {
    var w := FromBits(ToBits(v, n));
    FromBitsBound(ToBits(v, n));
    if n <= m {
      Pow2Monotonic(n, m);
      forall i: nat | i < m
        ensures Bit(v, i) == Bit(w, i)
      {
        BitFromBits(ToBits(v, n), i);
      }
      BitsDetermine(v, w, m);
    } else {
      Pow2Monotonic(m, n);
    }
  }

  lemma FromToBits(v: nat, n: nat)
    requires v < Pow2(n)
    ensures FromBits(ToBits(v, n)) == v
  {
    var w := FromBits(ToBits(v, n));
    FromBitsBound(ToBits(v, n));
    forall i: nat | i < n
      ensures Bit(v, i) == Bit(w, i)
    {
      BitFromBits(ToBits(v, n), i);
    }
    BitsDetermine(v, w, n);
  }

  lemma ZeroHasNoBits()
    ensures forall i: nat :: !Bit(0, i)
  {
    forall i: nat
      ensures !Bit(0, i)
    {
      BitZero(i);
    }
  }

  /** Concatenating bits puts the second part above the first. */
  lemma {:induction false} FromBitsConcat(a: seq<bool>, b: seq<bool>)
    ensures FromBits(a + b) == FromBits(a) + Scale(|a|, FromBits(b))
  {
    if a == [] {
      assert a + b == b;
    } else {
      FromBitsConcat(a[1..], b);
      assert (a + b)[1..] == a[1..] + b;
    }
  }

  /** Every number has finitely many bits. */
  lemma {:induction false} BelowSomePow2(v: nat)
    ensures v < Pow2(v)
  {
    if v != 0 {
      BelowSomePow2(v - 1);
    }
  }

  /** Every number splits at bit `n` into a low part `r` and a high part `q`. */
  lemma SplitBits(v: nat, n: nat) returns (q: nat, r: nat)
    ensures r < Pow2(n) && v == r + Scale(n, q)
    ensures forall i: nat :: Bit(q, i) == Bit(v, i + n)
    ensures forall i: nat :: Bit(r, i) == (i < n && Bit(v, i))
  {
    BelowSomePow2(v);
    var m := n + v;
    Pow2Monotonic(v, m);
    var lo, hi := ToBits(v, m)[..n], ToBits(v, m)[n..];
    FromToBits(v, m);
    assert ToBits(v, m) == lo + hi;
    FromBitsConcat(lo, hi);
    FromBitsBound(lo);
    q, r := FromBits(hi), FromBits(lo);
    forall i: nat
      ensures Bit(q, i) == Bit(v, i + n)
      ensures Bit(r, i) == (i < n && Bit(v, i))
    {
      BitFromBits(hi, i);
      BitFromBits(lo, i);
      if v <= i {
        HighBitsZero(v, m, i + n);
      }
    }
  }

  /** 2^n - 1 has exactly the bits below `n`. */
  lemma {:induction false} OnesBits(n: nat, i: nat)
    ensures Bit(Pow2(n) - 1, i) == (i < n)
  {
    if n == 0 {
      BitZero(i);
    } else if i != 0 {
      assert (Pow2(n) - 1) / 2 == Pow2(n - 1) - 1;
      OnesBits(n - 1, i - 1);
    }
  }

  /** The 64-bit word with bit `i` set exactly when `f(i)`. */
  function Word(f: nat -> bool): (w: u64)
    ensures forall i: nat :: Bit(w, i) == (i < 64 && f(i))
  {
    var s := seq(64, i requires 0 <= i < 64 => f(i));
    Pow2Is64();
    FromBitsBound(s);
    assert forall i: nat :: Bit(FromBits(s), i) == (i < 64 && f(i)) by {
      forall i: nat ensures Bit(FromBits(s), i) == (i < 64 && f(i)) {
        BitFromBits(s, i);
      }
    }
    FromBits(s)
  }

  /** Two words with the same bits are the same word. */
  lemma WordsEqual(a: u64, b: u64)
    requires forall i: nat :: i < 64 ==> Bit(a, i) == Bit(b, i)
    ensures a == b
  {
    Pow2Is64();
    BitsDetermine(a, b, 64);
  }

  lemma WordHasNoHighBits(a: u64)
    ensures forall i: nat :: 64 <= i ==> !Bit(a, i)
  {
    forall i: nat | 64 <= i
      ensures !Bit(a, i)
    {
      Pow2Is64();
      HighBitsZero(a, 64, i);
    }
  }

  function Or(a: u64, b: u64): (w: u64)
    ensures forall i: nat :: Bit(w, i) == (i < 64 && (Bit(a, i) || Bit(b, i)))
  {
    Word((i: nat) => Bit(a, i) || Bit(b, i))
  }

  function And(a: u64, b: u64): (w: u64)
    ensures forall i: nat :: Bit(w, i) == (i < 64 && Bit(a, i) && Bit(b, i))
  {
    Word((i: nat) => Bit(a, i) && Bit(b, i))
  }

  function Xor(a: u64, b: u64): (w: u64)
    ensures forall i: nat :: Bit(w, i) == (i < 64 && Bit(a, i) != Bit(b, i))
  {
    Word((i: nat) => Bit(a, i) != Bit(b, i))
  }

  /** `a << k`. */
  function Shl(a: u64, k: nat): (w: u64)
    requires k < 64
    ensures forall i: nat :: Bit(w, i) == (k <= i < 64 && Bit(a, i - k))
  {
    Word((i: nat) => k <= i && Bit(a, i - k))
  }

  /** `a >> k`, zero filling. */
  function Shr(a: u64, k: nat): (w: u64)
    requires k < 64
    ensures forall i: nat :: Bit(w, i) == (i < 64 && Bit(a, i + k))
  {
    Word((i: nat) => Bit(a, i + k))
  }

  /** A release build reduces the shift amount modulo 64. */
  function WrappingShl(a: u64, k: nat): u64 {
    Shl(a, k % 64)
  }

  function WrappingShr(a: u64, k: nat): u64 {
    Shr(a, k % 64)
  }

  /** `a.checked_shr(k).unwrap_or(0)`. */
  function CheckedShr(a: u64, k: nat): (w: u64)
    ensures forall i: nat :: Bit(w, i) == (i < 64 && Bit(a, i + k))
  {
    if k < 64 then Shr(a, k)
    else
      WordHasNoHighBits(a);
      ZeroHasNoBits();
      0
  }

  /** Truncation to a word keeps the 64 low bits. */
  lemma LowWord(v: nat) returns (r: u64)
    ensures r == v % TWO_TO_64
    ensures forall i: nat :: Bit(r, i) == (i < 64 && Bit(v, i))
  {
    hide Bit;
    var q, r' := SplitBits(v, 64);
    assert v == r' + TWO_TO_64 * q && r' < TWO_TO_64 by {
      Pow2Is64();
      ScaleIsMul(64, q);
    }
    return r';
  }

  /** A left shift multiplies by 2^k, dropping a multiple of 2^64. */
  lemma ShlIsScale(a: u64, k: nat) returns (q: nat)
    requires k < 64
    ensures Scale(k, a) == Shl(a, k) + Scale(64, q)
  {
    hide Bit, Shl;
    var s := ToBits(0, k) + ToBits(a, 64);
    assert FromBits(s) == Scale(k, a) by {
      Pow2Is64();
      FromBitsConcat(ToBits(0, k), ToBits(a, 64));
      FromToBits(a, 64);
      FromToBits(0, k);
    }
    var q', r := SplitBits(Scale(k, a), 64);
    assert r < TWO_TO_64 by { Pow2Is64(); }
    forall i: nat | i < 64
      ensures Bit(Shl(a, k), i) == Bit(r, i)
    {
      BitFromBits(s, i);
      BitZero(i);
    }
    WordsEqual(Shl(a, k), r);
    return q';
  }

  /** A right shift divides by 2^k: it leaves a remainder below 2^k. */
  lemma ShrIsDiv(a: u64, k: nat) returns (r: nat)
    requires k < 64
    ensures a == r + Scale(k, Shr(a, k)) && r < Pow2(k)
  {
    var q, r' := SplitBits(a, k);
    ScaleGrows(k, q);
    WordsEqual(Shr(a, k), q);
    return r';
  }

  lemma {:induction false} ScaleGrows(n: nat, x: nat)
    ensures x <= Scale(n, x)
  {
    if n != 0 {
      ScaleGrows(n - 1, x);
    }
  }

  /** The bits of `lo` below bit `n` and those of `hi` from there on. */
  function Joined(lo: u64, hi: u64, n: nat): (s: seq<bool>)
    requires n < 64
    ensures |s| == 64
  {
    ToBits(lo, n) + ToBits(hi, 64)[n..]
  }

  lemma JoinedIsSum(lo: u64, hi: u64, n: nat)
    requires n < 64 && lo < Pow2(n)
    requires forall i: nat :: i < n ==> !Bit(hi, i)
    ensures FromBits(Joined(lo, hi, n)) == lo + hi
  {
    hide Bit, FromBits;
    var h, zeros := ToBits(hi, 64)[n..], ToBits(0, n);
    ZeroHasNoBits();
    Pow2Monotonic(0, n);
    FromToBits(0, n);
    assert hi < Pow2(64) by {
      Pow2Is64();
    }
    FromToBits(hi, 64);
    FromToBits(lo, n);
    assert ToBits(hi, 64) == zeros + h;
    FromBitsConcat(zeros, h);
    FromBitsConcat(ToBits(lo, n), h);
  }

  lemma JoinedBit(lo: u64, hi: u64, n: nat, i: nat)
    requires n < 64 && lo < Pow2(n) && i < 64
    requires i < n ==> !Bit(hi, i)
    ensures Joined(lo, hi, n)[i] == (Bit(lo, i) || Bit(hi, i))
  {
    hide Bit;
    if n <= i {
      HighBitsZero(lo, n, i);
    }
  }

  /** Disjoint words are added by `Or`. */
  lemma OrIsAdd(lo: u64, hi: u64, n: nat)
    requires n < 64 && lo < Pow2(n)
    requires forall i: nat :: i < n ==> !Bit(hi, i)
    ensures Or(lo, hi) == lo + hi
  {
    hide Bit, Or, Joined, FromBits;
    JoinedIsSum(lo, hi, n);
    var s := Joined(lo, hi, n);
    assert FromBits(s) < TWO_TO_64 by {
      FromBitsBound(s);
      Pow2Is64();
    }
    forall i: nat | i < 64
      ensures Bit(Or(lo, hi), i) == Bit(FromBits(s), i)
    {
      BitFromBits(s, i);
      JoinedBit(lo, hi, n, i);
    }
    WordsEqual(Or(lo, hi), FromBits(s));
  }

  /** The word with exactly the `n` low bits set. */
  function Ones(n: nat): (w: u64)
    requires n <= 64
    ensures w == Pow2(n) - 1
    ensures forall i: nat :: Bit(w, i) == (i < n)
  {
    Pow2Is64();
    Pow2Monotonic(n, 64);
    OnesHaveBits(n, Pow2(n) - 1);
    Pow2(n) - 1
  }

  lemma OnesHaveBits(n: nat, w: nat)
    requires w == Pow2(n) - 1
    ensures forall i: nat :: Bit(w, i) == (i < n)
  {
    forall i: nat
      ensures Bit(w, i) == (i < n)
    {
      OnesBits(n, i);
    }
  }

  /** `(1 << n) - 1`. */
  function LowMask(n: nat): (w: u64)
    requires n < 64
    ensures w == Ones(n)
  {
    ShlOne(n);
    Shl(1, n) - 1
  }

  lemma {:induction false} Pow2Bits(n: nat, i: nat)
    ensures Bit(Pow2(n), i) == (i == n)
  {
    if i == 0 {
    } else if n == 0 {
      BitZero(i - 1);
    } else {
      Pow2Bits(n - 1, i - 1);
    }
  }

  lemma Pow2IsWord(n: nat)
    requires n < 64
    ensures Pow2(n) < TWO_TO_64
  {
    Pow2Is64();
    Pow2Monotonic(n + 1, 64);
  }

  lemma ShlOne(n: nat)
    requires n < 64
    ensures Shl(1, n) == Pow2(n)
  {
    Pow2IsWord(n);
    forall i: nat | i < 64
      ensures Bit(Shl(1, n), i) == Bit(Pow2(n), i)
    {
      Pow2Bits(n, i);
      if n <= i {
        Pow2Bits(0, i - n);
      }
    }
    WordsEqual(Shl(1, n), Pow2(n));
  }

  /** `u64::MAX >> (64 - n)`. */
  function HighMask(n: nat): (w: u64)
    requires 0 < n <= 64
    ensures w == Ones(n)
  {
    Pow2Is64();
    WordsEqual(Shr(Ones(64), 64 - n), Ones(n));
    Shr(TWO_TO_64 - 1, 64 - n)
  }

  /** The `n` least significant bits of `v`. */
  function TrailingBits(v: u64, n: nat): (w: u64)
    ensures forall i: nat :: Bit(w, i) == (i < n && i < 64 && Bit(v, i))
  {
    if n == 0 then ZeroHasNoBits(); 0
    else if n >= 64 then WordHasNoHighBits(v); v
    else And(v, LowMask(n))
  }

  /** `TrailingBits` is the remainder below 2^n. */
  lemma TrailingBitsIsMod(v: u64, n: nat) returns (q: nat)
    ensures v == TrailingBits(v, n) + Scale(n, q) && TrailingBits(v, n) < Pow2(n)
  {
    var q', r := SplitBits(v, n);
    WordHasNoHighBits(v);
    WordsEqual(TrailingBits(v, n), r);
    return q';
  }

  lemma TrailingBitsNoop(v: u64, n: nat)
    requires v < Pow2(n)
    ensures TrailingBits(v, n) == v
  {
    hide Bit, TrailingBits, Pow2;
    forall i: nat | i < 64
      ensures Bit(TrailingBits(v, n), i) == Bit(v, i)
    {
      if n <= i {
        HighBitsZero(v, n, i);
      }
    }
    WordsEqual(TrailingBits(v, n), v);
  }
}
