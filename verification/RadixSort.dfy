/**
  The radix sort of packed row pointers: six rounds over the 24-bit partition id, four bits a
  round, each a pass over sixteen buckets.
 */
module RadixSort {
  import opened Words

  const NBUCKETS: nat := 16
  const NROUNDS: nat := 6

  // ----- keys and digits

  /** The upper 24 bits of the pointer, unsigned. */
  function PartitionId(x: i64): u64 {
    Shr(And(Pattern(x), 0xFFFF_FF00_0000_0000), 40)
  }

  /** The bucket of `x` in a round: four bits of its partition id. */
  function GetBucket(x: i64, round: nat): u64
    requires round < NROUNDS
  {
    And(Shr(PartitionId(x), 4 * round), 15)
  }

  /** Hexadecimal digit `r` of `k`. */
  function Digit(k: nat, r: nat): (d: nat)
    ensures d < 16
  {
    if r == 0 then k % 16 else Digit(k / 16, r - 1)
  }

  /** The number made of the `r` low digits of `k`. */
  function LowDigits(k: nat, r: nat): nat {
    if r == 0 then 0 else k % 16 + 16 * LowDigits(k / 16, r - 1)
  }

  /** The key after `r` rounds. */
  function Key(x: i64, r: nat): nat {
    LowDigits(PartitionId(x), r)
  }

  lemma Split4(v: u64)
    ensures And(v, 15) == v % 16
    ensures Shr(v, 4) == v / 16
  {
    hide Bit, And, Shr;
    var q, r := SplitBits(v, 4);
    assert v == r + 16 * q && r < 16 by {
      ScaleIsMul(4, q);
      assert Pow2(4) == 16;
    }
    assert q == v / 16 && r == v % 16;
    WordHasNoHighBits(v);
    forall i: nat | i < 64
      ensures Bit(And(v, 15), i) == Bit(r, i)
    {
      assert Pow2(4) == 16;
      OnesBits(4, i);
    }
    WordsEqual(And(v, 15), r);
    WordsEqual(Shr(v, 4), q);
  }

  lemma ShrTwice(v: u64, a: nat, b: nat)
    requires a + b < 64
    ensures Shr(Shr(v, a), b) == Shr(v, a + b)
  {
    hide Bit, Shr;
    WordHasNoHighBits(v);
    WordsEqual(Shr(Shr(v, a), b), Shr(v, a + b));
  }

  /** Shifting by four bits a round and masking selects the digit. */
  lemma {:induction false} BucketIsDigit(v: u64, r: nat)
    requires r < 16
    ensures And(Shr(v, 4 * r), 15) == Digit(v, r)
  {
    hide And, Shr;
    Split4(v);
    if r == 0 {
      WordsEqual(Shr(v, 0), v);
    } else {
      ShrTwice(v, 4, 4 * (r - 1));
      BucketIsDigit(v / 16, r - 1);
    }
  }

  lemma GetBucketIsDigit(x: i64, round: nat)
    requires round < NROUNDS
    ensures GetBucket(x, round) == Digit(PartitionId(x), round) < NBUCKETS
  {
    hide And, Shr, PartitionId;
    BucketIsDigit(PartitionId(x), round);
  }

  /** The partition id is the quotient of the unsigned pointer by 2^40, below 2^24. */
  lemma PartitionIdIs(x: i64)
    ensures PartitionId(x) == Pattern(x) / 0x100_0000_0000 < 0x100_0000
  {
    hide Bit, And, Shr;
    var p, m: u64 := Pattern(x), 0xFFFF_FF00_0000_0000;
    var q, r := SplitBits(p, 40);
    assert p == r + 0x100_0000_0000 * q && r < 0x100_0000_0000 by {
      ScaleIsMul(40, q);
      Pow2Of40();
    }
    assert q == p / 0x100_0000_0000;
    WordHasNoHighBits(p);
    forall i: nat | i < 64
      ensures Bit(Shr(And(p, m), 40), i) == Bit(q, i)
    {
      UpperMask(i + 40);
    }
    WordsEqual(PartitionId(x), q);
  }

  lemma Pow2Of40()
    ensures Pow2(40) == 0x100_0000_0000
  {
    Pow2Is64();
    ScalePow2(8, 32);
    ScaleIsMul(8, Pow2(32));
  }

  lemma UpperMask(i: nat)
    ensures Bit(0xFFFF_FF00_0000_0000, i) == (40 <= i < 64)
  {
    var w := Word((j: nat) => 40 <= j);
    assert w == 0xFFFF_FF00_0000_0000 by {
      Pow2Is64();
      Pow2Of40();
      OrIsAdd(Ones(40), w, 40);
      WordsEqual(Or(Ones(40), w), Ones(64));
    }
  }

  // ----- digits order keys

  /** `x` times 16^r. */
  function Scale16(r: nat, x: nat): nat {
    if r == 0 then x else 16 * Scale16(r - 1, x)
  }

  lemma {:induction false} ScaleOrder(r: nat, a: nat, b: nat)
    requires a < b
    ensures Scale16(r, a) + Scale16(r, 1) <= Scale16(r, b)
  {
    if r != 0 {
      ScaleOrder(r - 1, a, b);
    }
  }

  /** One more digit is added on top. */
  lemma {:induction false} AddDigit(k: nat, r: nat)
    ensures LowDigits(k, r + 1) == LowDigits(k, r) + Scale16(r, Digit(k, r))
    ensures LowDigits(k, r) < Scale16(r, 1)
  {
    if r != 0 {
      AddDigit(k / 16, r - 1);
    }
  }

  /** Keys of `r + 1` digits compare by the top digit, then by the rest. */
  lemma KeyOrder(a: nat, b: nat, r: nat)
    ensures Digit(a, r) < Digit(b, r) ==> LowDigits(a, r + 1) < LowDigits(b, r + 1)
    ensures Digit(a, r) == Digit(b, r) ==>
              (LowDigits(a, r + 1) <= LowDigits(b, r + 1) <==> LowDigits(a, r) <= LowDigits(b, r))
    ensures LowDigits(a, r + 1) == LowDigits(b, r + 1) ==>
              Digit(a, r) == Digit(b, r) && LowDigits(a, r) == LowDigits(b, r)
  {
    AddDigit(a, r);
    AddDigit(b, r);
    if Digit(a, r) < Digit(b, r) {
      ScaleOrder(r, Digit(a, r), Digit(b, r));
    } else if Digit(b, r) < Digit(a, r) {
      ScaleOrder(r, Digit(b, r), Digit(a, r));
    }
  }

  /** Six digits are the whole partition id. */
  lemma FullKey(x: i64)
    ensures Key(x, NROUNDS) == PartitionId(x)
  {
    PartitionIdIs(x);
    hide PartitionId;
    AllDigits(PartitionId(x), 6);
    assert Scale16(6, 1) == 0x100_0000;
  }

  lemma {:induction false} AllDigits(k: nat, r: nat)
    requires k < Scale16(r, 1)
    ensures LowDigits(k, r) == k
  {
    if r != 0 {
      AllDigits(k / 16, r - 1);
    }
  }

  // ----- passes

  function Flatten(bs: seq<seq<i64>>): seq<i64> {
    if bs == [] then [] else bs[0] + Flatten(bs[1..])
  }

  /** The elements of `s` in bucket `d`, in order. */
  function ByDigit(s: seq<i64>, r: nat, d: nat): seq<i64> {
    if s == [] then []
    else (if Digit(PartitionId(s[0]), r) == d then [s[0]] else []) + ByDigit(s[1..], r, d)
  }

  /** The buckets from `d` on, concatenated. */
  function BucketsFrom(s: seq<i64>, r: nat, d: nat): seq<i64>
    requires d <= NBUCKETS
    decreases NBUCKETS - d
  {
    if d == NBUCKETS then [] else ByDigit(s, r, d) + BucketsFrom(s, r, d + 1)
  }

  /** One pass: the sixteen buckets, concatenated. */
  function Pass(s: seq<i64>, r: nat): seq<i64> {
    BucketsFrom(s, r, 0)
  }

  /** The sequence after rounds 0 to `n - 1`. */
  function Rounds(s: seq<i64>, n: nat): seq<i64> {
    if n == 0 then s else Pass(Rounds(s, n - 1), n - 1)
  }

  // ----- sorted and stable

  ghost predicate Sorted(s: seq<i64>, r: nat) {
    forall i, j :: 0 <= i < j < |s| ==> Key(s[i], r) <= Key(s[j], r)
  }

  /** The elements with key `m`, in order. */
  function Having(s: seq<i64>, r: nat, m: nat): seq<i64> {
    if s == [] then []
    else (if Key(s[0], r) == m then [s[0]] else []) + Having(s[1..], r, m)
  }

  /** `t` has the elements of `s`, and those with equal keys in the same order. */
  ghost predicate Stable(s: seq<i64>, t: seq<i64>, r: nat) {
    forall m: nat :: Having(t, r, m) == Having(s, r, m)
  }

  lemma HavingCons(x: i64, s: seq<i64>, r: nat, m: nat)
    ensures Having([x] + s, r, m) == (if Key(x, r) == m then [x] else []) + Having(s, r, m)
  {
    assert ([x] + s)[1..] == s;
  }

  lemma {:induction false} HavingConcat(a: seq<i64>, b: seq<i64>, r: nat, m: nat)
    ensures Having(a + b, r, m) == Having(a, r, m) + Having(b, r, m)
  {
    hide Key;
    if a == [] {
      assert a + b == b;
    } else {
      var rest := a[1..];
      assert (a + b)[1..] == rest + b && (a + b)[0] == a[0];
      HavingConcat(rest, b, r, m);
      var head := if Key(a[0], r) == m then [a[0]] else [];
      assert Having(a + b, r, m) == head + Having(rest + b, r, m);
      assert Having(a, r, m) == head + Having(rest, r, m);
    }
  }

  lemma {:induction false} ByDigitConcat(a: seq<i64>, b: seq<i64>, r: nat, d: nat)
    ensures ByDigit(a + b, r, d) == ByDigit(a, r, d) + ByDigit(b, r, d)
  {
    hide Digit, PartitionId;
    if a == [] {
      assert a + b == b;
    } else {
      var rest := a[1..];
      assert (a + b)[1..] == rest + b && (a + b)[0] == a[0];
      ByDigitConcat(rest, b, r, d);
      var head := if Digit(PartitionId(a[0]), r) == d then [a[0]] else [];
      assert ByDigit(a + b, r, d) == head + ByDigit(rest + b, r, d);
      assert ByDigit(a, r, d) == head + ByDigit(rest, r, d);
    }
  }

  lemma {:induction false} ByDigitMembers(s: seq<i64>, r: nat, d: nat)
    ensures forall x :: x in ByDigit(s, r, d) ==> x in s && Digit(PartitionId(x), r) == d
  {
    hide Digit, PartitionId;
    if s != [] {
      ByDigitMembers(s[1..], r, d);
    }
  }

  /** A bucket of a sequence sorted by `r` digits is sorted by `r + 1`. */
  lemma {:induction false} BucketSorted(s: seq<i64>, r: nat, d: nat)
    requires Sorted(s, r)
    ensures Sorted(ByDigit(s, r, d), r + 1)
  {
    hide Digit, PartitionId, LowDigits;
    if s != [] {
      var x, rest := s[0], ByDigit(s[1..], r, d);
      assert Sorted(s[1..], r);
      BucketSorted(s[1..], r, d);
      ByDigitMembers(s[1..], r, d);
      if Digit(PartitionId(x), r) == d {
        forall y | y in rest
          ensures Key(x, r + 1) <= Key(y, r + 1)
        {
          var j :| 0 <= j < |s[1..]| && s[1..][j] == y;
          assert s[j + 1] == y;
          KeyOrder(PartitionId(x), PartitionId(y), r);
        }
        SortedCons(x, rest, r + 1);
      } else {
        assert ByDigit(s, r, d) == rest;
      }
    }
  }

  lemma SortedCons(x: i64, s: seq<i64>, r: nat)
    requires Sorted(s, r) && forall y :: y in s ==> Key(x, r) <= Key(y, r)
    ensures Sorted([x] + s, r)
  {
    hide Key;
    var t := [x] + s;
    forall i, j | 0 <= i < j < |t|
      ensures Key(t[i], r) <= Key(t[j], r)
    {
      assert t[j] == s[j - 1];
      if i > 0 {
        assert t[i] == s[i - 1];
      }
    }
  }

  lemma SortedConcat(a: seq<i64>, b: seq<i64>, r: nat)
    requires Sorted(a, r) && Sorted(b, r)
    requires forall x, y :: x in a && y in b ==> Key(x, r) <= Key(y, r)
    ensures Sorted(a + b, r)
  {
    hide Key;
    var t := a + b;
    forall i, j | 0 <= i < j < |t|
      ensures Key(t[i], r) <= Key(t[j], r)
    {
      if j >= |a| {
        assert t[j] == b[j - |a|];
        if i >= |a| {
          assert t[i] == b[i - |a|];
        }
      }
    }
  }

  lemma {:induction false} BucketsFromMembers(s: seq<i64>, r: nat, d: nat)
    requires d <= NBUCKETS
    ensures forall x :: x in BucketsFrom(s, r, d) ==> x in s && d <= Digit(PartitionId(x), r)
    decreases NBUCKETS - d
  {
    hide Digit, PartitionId, ByDigit;
    if d < NBUCKETS {
      ByDigitMembers(s, r, d);
      BucketsFromMembers(s, r, d + 1);
    }
  }

  /** A pass turns sorted by `r` digits into sorted by `r + 1`. */
  lemma {:induction false} BucketsFromSorted(s: seq<i64>, r: nat, d: nat)
    requires Sorted(s, r) && d <= NBUCKETS
    ensures Sorted(BucketsFrom(s, r, d), r + 1)
    decreases NBUCKETS - d
  {
    hide Digit, PartitionId, LowDigits, ByDigit;
    if d < NBUCKETS {
      BucketSorted(s, r, d);
      BucketsFromSorted(s, r, d + 1);
      ByDigitMembers(s, r, d);
      BucketsFromMembers(s, r, d + 1);
      var a, b, n := ByDigit(s, r, d), BucketsFrom(s, r, d + 1), r + 1;
      forall x, y | x in a && y in b
        ensures Key(x, n) <= Key(y, n)
      {
        KeyOrder(PartitionId(x), PartitionId(y), r);
      }
      SortedConcat(a, b, n);
    }
  }

  // ----- a pass keeps the order of equal keys

  /** Within its own bucket nothing with key `m` is lost or moved; elsewhere there is none. */
  lemma {:induction false} HavingInBucket(s: seq<i64>, r: nat, m: nat, d: nat, x: i64)
    requires Key(x, r + 1) == m
    ensures Having(ByDigit(s, r, d), r + 1, m)
            == if Digit(PartitionId(x), r) == d then Having(s, r + 1, m) else []
  {
    hide Digit, PartitionId, LowDigits;
    if s != [] {
      HavingInBucket(s[1..], r, m, d, x);
      KeyOrder(PartitionId(s[0]), PartitionId(x), r);
      var rest := ByDigit(s[1..], r, d);
      HavingCons(s[0], rest, r + 1, m);
      assert [] + rest == rest;
    }
  }

  lemma {:induction false} HavingInBuckets(s: seq<i64>, r: nat, m: nat, d: nat, x: i64)
    requires Key(x, r + 1) == m && d <= NBUCKETS
    ensures Having(BucketsFrom(s, r, d), r + 1, m)
            == if d <= Digit(PartitionId(x), r) then Having(s, r + 1, m) else []
    decreases NBUCKETS - d
  {
    hide Digit, PartitionId, LowDigits, ByDigit, Having;
    if d < NBUCKETS {
      HavingInBucket(s, r, m, d, x);
      HavingInBuckets(s, r, m, d + 1, x);
      HavingConcat(ByDigit(s, r, d), BucketsFrom(s, r, d + 1), r + 1, m);
    } else {
      HavingNothing(r + 1, m);
    }
  }

  lemma HavingNothing(r: nat, m: nat)
    ensures Having([], r, m) == []
  {
  }

  lemma {:induction false} HavingNone(s: seq<i64>, r: nat, m: nat)
    requires forall x :: x in s ==> Key(x, r) != m
    ensures Having(s, r, m) == []
  {
    hide Key;
    if s != [] {
      HavingNone(s[1..], r, m);
    }
  }

  lemma PassStable(s: seq<i64>, r: nat)
    ensures Stable(s, Pass(s, r), r + 1)
  {
    hide Key, Having, BucketsFrom;
    var t, n := Pass(s, r), r + 1;
    forall m: nat
      ensures Having(t, n, m) == Having(s, n, m)
    {
      if x :| x in s && Key(x, r + 1) == m {
        HavingInBuckets(s, r, m, 0, x);
      } else {
        BucketsFromMembers(s, r, 0);
        HavingNone(s, r + 1, m);
        HavingNone(Pass(s, r), r + 1, m);
      }
    }
  }

  /** A longer key splits the elements of a shorter one. */
  lemma {:induction false} HavingRefines(s: seq<i64>, r: nat, m: nat, x: i64)
    requires Key(x, r + 1) == m
    ensures Having(Having(s, r, Key(x, r)), r + 1, m) == Having(s, r + 1, m)
  {
    hide Digit, PartitionId, LowDigits;
    if s != [] {
      HavingRefines(s[1..], r, m, x);
      KeyOrder(PartitionId(s[0]), PartitionId(x), r);
      var rest := Having(s[1..], r, Key(x, r));
      HavingCons(s[0], rest, r + 1, m);
      assert [] + rest == rest;
    }
  }

  /** Stability for short keys carries over to longer ones. */
  lemma StableRefines(s: seq<i64>, t: seq<i64>, r: nat)
    requires Stable(s, t, r)
    ensures Stable(s, t, r + 1)
  {
    hide Key, Having;
    var n := r + 1;
    forall m: nat
      ensures Having(t, n, m) == Having(s, n, m)
    {
      if x :| x in s + t && Key(x, r + 1) == m {
        HavingRefines(s, r, m, x);
        HavingRefines(t, r, m, x);
        assert Having(t, r, Key(x, r)) == Having(s, r, Key(x, r));
      } else {
        assert forall x :: x in s ==> x in s + t;
        assert forall x :: x in t ==> x in s + t;
        HavingNone(s, r + 1, m);
        HavingNone(t, r + 1, m);
      }
    }
  }

  /** After `n` rounds the sequence is stably sorted by the `4n` low bits of the partition id. */
  lemma {:induction false} RoundsSorted(s: seq<i64>, n: nat)
    ensures Sorted(Rounds(s, n), n) && Stable(s, Rounds(s, n), n)
  {
    hide Having, BucketsFrom, PartitionId;
    if n > 0 {
      var t := Rounds(s, n - 1);
      RoundsSorted(s, n - 1);
      BucketsFromSorted(t, n - 1, 0);
      PassStable(t, n - 1);
      StableRefines(s, t, n - 1);
    }
  }

  // ----- the stable sort is unique

  lemma {:induction false} HavingCount(s: seq<i64>, r: nat, x: i64)
    ensures multiset(Having(s, r, Key(x, r)))[x] == multiset(s)[x]
  {
    hide Key;
    if s != [] {
      HavingCount(s[1..], r, x);
      assert s == [s[0]] + s[1..];
      var rest := Having(s[1..], r, Key(x, r));
      assert multiset([s[0]] + rest) == multiset{s[0]} + multiset(rest);
      assert multiset([s[0]] + s[1..]) == multiset{s[0]} + multiset(s[1..]);
    }
  }

  /** A stable rearrangement is a permutation. */
  lemma StableIsPermutation(s: seq<i64>, t: seq<i64>, r: nat)
    requires Stable(s, t, r)
    ensures multiset(t) == multiset(s)
  {
    hide Key, Having;
    forall x: i64
      ensures multiset(t)[x] == multiset(s)[x]
    {
      HavingCount(s, r, x);
      HavingCount(t, r, x);
      assert Having(t, r, Key(x, r)) == Having(s, r, Key(x, r));
    }
  }

  /** The head of a sorted sequence is the first element with its key. */
  lemma HavingHead(s: seq<i64>, r: nat)
    requires s != []
    ensures Having(s, r, Key(s[0], r)) == [s[0]] + Having(s[1..], r, Key(s[0], r))
  {
  }

  lemma SortedHeadKey(s: seq<i64>, t: seq<i64>, r: nat)
    requires s != [] && t != [] && Sorted(t, r) && s[0] in t
    ensures Key(t[0], r) <= Key(s[0], r)
  {
    var j :| 0 <= j < |t| && t[j] == s[0];
  }

  /** Two sorted sequences with the same elements in the same order among equal keys are equal. */
  lemma {:induction false} StableSortUnique(s: seq<i64>, t: seq<i64>, r: nat)
    requires Sorted(s, r) && Sorted(t, r) && Stable(s, t, r)
    ensures s == t
    decreases |s|
  {
    hide Key, Having;
    StableIsPermutation(s, t, r);
    SameSize(s, t);
    if s != [] {
      assert s[0] in multiset(s) && t[0] in multiset(t);
      SortedHeadKey(s, t, r);
      SortedHeadKey(t, s, r);
      var m := Key(s[0], r);
      HavingHead(s, r);
      HavingHead(t, r);
      assert Having(t, r, m) == Having(s, r, m);
      assert s[0] == Having(s, r, m)[0] == t[0];
      forall m': nat
        ensures Having(t[1..], r, m') == Having(s[1..], r, m')
      {
        HavingTail(s, r, m');
        HavingTail(t, r, m');
        assert Having(t, r, m') == Having(s, r, m');
      }
      StableSortUnique(s[1..], t[1..], r);
      assert s == [s[0]] + s[1..] && t == [t[0]] + t[1..];
    }
  }

  lemma SameSize(s: seq<i64>, t: seq<i64>)
    requires multiset(s) == multiset(t)
    ensures |s| == |t|
  {
    assert |multiset(s)| == |s| && |multiset(t)| == |t|;
  }

  lemma HavingTail(s: seq<i64>, r: nat, m: nat)
    requires s != []
    ensures Having(s[1..], r, m) == if Key(s[0], r) == m then Having(s, r, m)[1..] else Having(s, r, m)
  {
    hide Key;
    assert ([s[0]] + Having(s[1..], r, m))[1..] == Having(s[1..], r, m);
  }

  // ----- the reference

  /** Insertion behind everything with a partition id no greater. */
  function Insert(x: i64, s: seq<i64>): seq<i64> {
    if s == [] then [x]
    else if PartitionId(x) < PartitionId(s[0]) then [x] + s
    else [s[0]] + Insert(x, s[1..])
  }

  /** The textbook stable sort by unsigned partition id. */
  function InsertionSort(s: seq<i64>): seq<i64> {
    if s == [] then [] else Insert(s[|s| - 1], InsertionSort(s[..|s| - 1]))
  }

  lemma {:induction false} InsertMembers(x: i64, s: seq<i64>)
    ensures forall y :: y in Insert(x, s) ==> y == x || y in s
  {
    hide PartitionId;
    if s != [] {
      InsertMembers(x, s[1..]);
    }
  }

  lemma {:induction false} InsertSorted(x: i64, s: seq<i64>)
    requires Sorted(s, NROUNDS)
    ensures Sorted(Insert(x, s), NROUNDS)
  {
    hide Key, PartitionId;
    if s != [] {
      FullKey(x);
      FullKey(s[0]);
      if PartitionId(x) < PartitionId(s[0]) {
        SortedCons(x, s, NROUNDS);
      } else {
        InsertSorted(x, s[1..]);
        InsertMembers(x, s[1..]);
        SortedCons(s[0], Insert(x, s[1..]), NROUNDS);
      }
    }
  }

  lemma {:induction false} InsertHaving(x: i64, s: seq<i64>, m: nat)
    requires Sorted(s, NROUNDS)
    ensures Having(Insert(x, s), NROUNDS, m) == Having(s, NROUNDS, m) + if Key(x, NROUNDS) == m then [x] else []
  {
    hide Key, PartitionId;
    if s == [] {
      HavingCons(x, s, NROUNDS, m);
      assert [x] + s == [x];
    } else {
      FullKey(x);
      FullKey(s[0]);
      if PartitionId(x) < PartitionId(s[0]) {
        HavingCons(x, s, NROUNDS, m);
        if Key(x, NROUNDS) == m {
          HavingNone(s, NROUNDS, m);
        }
      } else {
        InsertHaving(x, s[1..], m);
        HavingCons(s[0], Insert(x, s[1..]), NROUNDS, m);
        HavingCons(s[0], s[1..], NROUNDS, m);
        assert [s[0]] + s[1..] == s;
      }
    }
  }

  lemma {:induction false} InsertionSortCorrect(s: seq<i64>)
    ensures Sorted(InsertionSort(s), NROUNDS) && Stable(s, InsertionSort(s), NROUNDS)
  {
    hide Key, Having, Insert;
    if s != [] {
      var front, x := s[..|s| - 1], s[|s| - 1];
      InsertionSortCorrect(front);
      InsertSorted(x, InsertionSort(front));
      assert s == front + [x];
      var t := InsertionSort(s);
      forall m: nat
        ensures Having(t, NROUNDS, m) == Having(s, NROUNDS, m)
      {
        InsertHaving(x, InsertionSort(front), m);
        HavingConcat(front, [x], NROUNDS, m);
        HavingOne(x, NROUNDS, m);
        assert Having(InsertionSort(front), NROUNDS, m) == Having(front, NROUNDS, m);
      }
    }
  }

  lemma HavingOne(x: i64, r: nat, m: nat)
    ensures Having([x], r, m) == if Key(x, r) == m then [x] else []
  {
    hide Key;
    assert Having([], r, m) == [];
  }

  /** Six passes are the stable sort by partition id: the same sequence, a permutation. */
  lemma RoundsIsStableSort(s: seq<i64>)
    ensures Rounds(s, NROUNDS) == InsertionSort(s)
    ensures multiset(Rounds(s, NROUNDS)) == multiset(s)
    ensures forall i, j :: 0 <= i < j < |Rounds(s, NROUNDS)| ==>
              PartitionId(Rounds(s, NROUNDS)[i]) <= PartitionId(Rounds(s, NROUNDS)[j])
  {
    hide Key, Having, Rounds, InsertionSort, PartitionId;
    var t, u := Rounds(s, NROUNDS), InsertionSort(s);
    RoundsSorted(s, NROUNDS);
    InsertionSortCorrect(s);
    StableIsPermutation(s, t, NROUNDS);
    assert Stable(t, u, NROUNDS);
    StableSortUnique(t, u, NROUNDS);
    forall i, j | 0 <= i < j < |t|
      ensures PartitionId(t[i]) <= PartitionId(t[j])
    {
      FullKey(t[i]);
      FullKey(t[j]);
    }
  }

  // ----- the buckets in place

  /** Appends every item to its bucket. */
  method HelperBucket(buckets: array<seq<i64>>, items: seq<i64>, round: nat)
    requires buckets.Length == NBUCKETS && round < NROUNDS
    modifies buckets
    ensures forall d :: 0 <= d < NBUCKETS ==> buckets[d] == old(buckets[d]) + ByDigit(items, round, d)
  {
    hide Digit, PartitionId, ByDigit, GetBucket;
    ByDigitStart(items, round);
    for n := 0 to |items|
      invariant forall d :: 0 <= d < NBUCKETS ==> buckets[d] == old(buckets[d]) + ByDigit(items[..n], round, d)
    {
      var x := items[n];
      GetBucketIsDigit(x, round);
      var b := GetBucket(x, round);
      ByDigitNext(items, n, round);
      buckets[b] := buckets[b] + [x];
    }
    assert items[..|items|] == items;
  }

  lemma ByDigitStart(items: seq<i64>, r: nat)
    ensures forall d :: 0 <= d < NBUCKETS ==> ByDigit(items[..0], r, d) == []
  {
  }

  lemma ByDigitNext(items: seq<i64>, n: nat, r: nat)
    requires n < |items|
    ensures forall d :: 0 <= d < NBUCKETS ==>
              ByDigit(items[..n + 1], r, d)
              == ByDigit(items[..n], r, d) + if Digit(PartitionId(items[n]), r) == d then [items[n]] else []
  {
    forall d | 0 <= d < NBUCKETS
      ensures ByDigit(items[..n + 1], r, d)
              == ByDigit(items[..n], r, d) + if Digit(PartitionId(items[n]), r) == d then [items[n]] else []
    {
      hide Digit, PartitionId;
      assert items[..n + 1] == items[..n] + [items[n]];
      ByDigitConcat(items[..n], [items[n]], r, d);
      assert ByDigit([], r, d) == [];
    }
  }

  /** Buckets that hold the digits of `s` are, concatenated, one pass over `s`. */
  lemma {:induction false} FlattenIsBuckets(bs: seq<seq<i64>>, s: seq<i64>, r: nat, d: nat)
    requires d <= NBUCKETS && |bs| == NBUCKETS - d
    requires forall k :: 0 <= k < |bs| ==> bs[k] == ByDigit(s, r, d + k)
    ensures Flatten(bs) == BucketsFrom(s, r, d)
    decreases |bs|
  {
    hide ByDigit;
    if d < NBUCKETS {
      forall k | 0 <= k < |bs[1..]|
        ensures bs[1..][k] == ByDigit(s, r, d + 1 + k)
      {
        assert bs[1..][k] == bs[k + 1];
      }
      FlattenIsBuckets(bs[1..], s, r, d + 1);
    }
  }

  lemma {:induction false} FlattenAppend(bs: seq<seq<i64>>, b: seq<i64>)
    ensures Flatten(bs + [b]) == Flatten(bs) + b
  {
    if bs == [] {
      assert bs + [b] == [b];
      assert Flatten([b][1..]) == [];
    } else {
      assert (bs + [b])[1..] == bs[1..] + [b];
      FlattenAppend(bs[1..], b);
    }
  }

  /** One round: clears `to` and distributes the contents of `from` by digit. */
  method Round(from: array<seq<i64>>, to: array<seq<i64>>, round: nat)
    requires from.Length == NBUCKETS && to.Length == NBUCKETS && from != to && round < NROUNDS
    modifies to
    ensures forall d :: 0 <= d < NBUCKETS ==> to[d] == ByDigit(Flatten(from[..]), round, d)
  {
    hide ByDigit, Flatten;
    forall d | 0 <= d < NBUCKETS {
      to[d] := [];
    }
    FlattenStart(from[..], round);
    for i := 0 to from.Length
      invariant forall d :: 0 <= d < NBUCKETS ==> to[d] == ByDigit(Flatten(from[..i]), round, d)
    {
      FlattenNext(from[..], i, round);
      HelperBucket(to, from[i], round);
    }
    assert from[..from.Length] == from[..];
  }

  lemma FlattenStart(bs: seq<seq<i64>>, r: nat)
    ensures forall d :: 0 <= d < NBUCKETS ==> ByDigit(Flatten(bs[..0]), r, d) == []
  {
  }

  lemma FlattenNext(bs: seq<seq<i64>>, i: nat, r: nat)
    requires i < |bs|
    ensures forall d :: 0 <= d < NBUCKETS ==>
              ByDigit(Flatten(bs[..i + 1]), r, d) == ByDigit(Flatten(bs[..i]), r, d) + ByDigit(bs[i], r, d)
  {
    hide ByDigit;
    assert bs[..i + 1] == bs[..i] + [bs[i]];
    FlattenAppend(bs[..i], bs[i]);
    forall d | 0 <= d < NBUCKETS
      ensures ByDigit(Flatten(bs[..i + 1]), r, d) == ByDigit(Flatten(bs[..i]), r, d) + ByDigit(bs[i], r, d)
    {
      ByDigitConcat(Flatten(bs[..i]), bs[i], r, d);
    }
  }

  /** Copies the buckets back; the size assertions of the source hold on the way. */
  method CopyBack(buckets: seq<seq<i64>>, a: array<i64>)
    requires |Flatten(buckets)| == a.Length
    modifies a
    ensures a[..] == Flatten(buckets)
  {
    hide Flatten;
    var pos := 0;
    FlattenEmpty(buckets);
    for i := 0 to |buckets|
      invariant 0 <= pos <= a.Length && a[..pos] == Flatten(buckets[..i])
    {
      var bucket := buckets[i];
      FlattenPrefix(buckets, i);
      assert pos + |bucket| <= a.Length;
      ghost var done := a[..pos];
      forall k | 0 <= k < |bucket| {
        a[pos + k] := bucket[k];
      }
      assert a[..pos + |bucket|] == done + bucket;
      pos := pos + |bucket|;
    }
    assert buckets[..|buckets|] == buckets;
    assert pos == a.Length;
    assert a[..] == a[..pos];
  }

  lemma FlattenEmpty(bs: seq<seq<i64>>)
    ensures Flatten(bs[..0]) == []
  {
  }

  lemma FlattenPrefix(bs: seq<seq<i64>>, i: nat)
    requires i < |bs|
    ensures Flatten(bs[..i + 1]) == Flatten(bs[..i]) + bs[i]
    ensures |Flatten(bs[..i + 1])| <= |Flatten(bs)|
  {
    assert bs[..i + 1] == bs[..i] + [bs[i]];
    FlattenAppend(bs[..i], bs[i]);
    FlattenConcat(bs[..i + 1], bs[i + 1..]);
    assert bs[..i + 1] + bs[i + 1..] == bs;
  }

  lemma {:induction false} FlattenConcat(a: seq<seq<i64>>, b: seq<seq<i64>>)
    ensures Flatten(a + b) == Flatten(a) + Flatten(b)
  {
    if a == [] {
      assert a + b == b;
    } else {
      assert (a + b)[1..] == a[1..] + b;
      FlattenConcat(a[1..], b);
    }
  }

  /** Sorts `a` in place: six rounds between two sets of buckets, then the copy back. */
  method RdxSort(a: array<i64>)
    modifies a
    ensures a[..] == InsertionSort(old(a[..]))
    ensures multiset(a[..]) == old(multiset(a[..]))
    ensures forall i, j :: 0 <= i < j < a.Length ==> PartitionId(a[i]) <= PartitionId(a[j])
  {
    hide Flatten, ByDigit, PartitionId, InsertionSort, BucketsFrom, Rounds;
    ghost var s := a[..];
    var bucketsA := new seq<i64>[NBUCKETS](i => []);
    var bucketsB := new seq<i64>[NBUCKETS](i => []);
    HelperBucket(bucketsA, a[..], 0);
    RoundsStart(s);
    assert forall d :: 0 <= d < NBUCKETS ==> bucketsA[d] == [] + ByDigit(s, 0, d);
    RoundsStep(bucketsA[..], s, 0);
    for round := 1 to NROUNDS
      invariant bucketsA.Length == NBUCKETS && bucketsB.Length == NBUCKETS && bucketsA != bucketsB
      invariant fresh(bucketsA) && fresh(bucketsB) && a[..] == s
      invariant Flatten(bucketsA[..]) == Rounds(s, round)
    {
      Round(bucketsA, bucketsB, round);
      bucketsA, bucketsB := bucketsB, bucketsA;
      RoundsStep(bucketsA[..], s, round);
    }
    RoundsIsStableSort(s);
    SameSize(s, Rounds(s, NROUNDS));
    CopyBack(bucketsA[..], a);
    assert a[..] == Rounds(s, NROUNDS);
    forall i, j | 0 <= i < j < a.Length
      ensures PartitionId(a[i]) <= PartitionId(a[j])
    {
      assert a[i] == a[..][i] && a[j] == a[..][j];
    }
  }

  lemma RoundsStart(s: seq<i64>)
    ensures Rounds(s, 0) == s
  {
  }

  lemma RoundsStep(bs: seq<seq<i64>>, s: seq<i64>, n: nat)
    requires |bs| == NBUCKETS && forall d :: 0 <= d < NBUCKETS ==> bs[d] == ByDigit(Rounds(s, n), n, d)
    ensures Flatten(bs) == Rounds(s, n + 1)
  {
    FlattenIsBuckets(bs, Rounds(s, n), n, 0);
  }
}
