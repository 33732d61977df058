/**
  The `setIndices` loop: from (start, count) pairs of row ranges, it hands one window of the
  selected row positions to the column reader.
 */
module SetIndices {

  /** The reader, reduced to the ranges it was given. */
  class PositionReader {
    var ranges: seq<(int, nat)>

    constructor ()
      ensures ranges == []
    {
      ranges := [];
    }

    method SetPosition(start: int, count: nat)
      modifies this
      ensures ranges == old(ranges) + [(start, count)]
    {
      ranges := ranges + [(start, count)];
    }
  }

  function Min(a: int, b: int): int {
    if a <= b then a else b
  }

  function Range(start: int, count: nat): (r: seq<int>)
    ensures |r| == count && forall k :: 0 <= k < count ==> r[k] == start + k
  {
    seq(count, k => start + k)
  }

  /** The positions in a sequence of ranges, in order. */
  function Flatten(ranges: seq<(int, nat)>): seq<int> {
    if ranges == [] then []
    else Flatten(ranges[..|ranges| - 1]) + Range(ranges[|ranges| - 1].0, ranges[|ranges| - 1].1)
  }

  /** Alternating starts and counts, with counts that are not negative. */
  predicate Paired(pairs: seq<int>) {
    |pairs| % 2 == 0 && forall k :: 0 <= k < |pairs| / 2 ==> pairs[2 * k + 1] >= 0
  }

  /** The positions in the first `n` pairs. */
  function Positions(pairs: seq<int>, n: nat): seq<int>
    requires Paired(pairs) && 2 * n <= |pairs|
  {
    if n == 0 then [] else Positions(pairs, n - 1) + Range(pairs[2 * n - 2], pairs[2 * (n - 1) + 1])
  }

  function AllPositions(pairs: seq<int>): seq<int>
    requires Paired(pairs)
  {
    Positions(pairs, |pairs| / 2)
  }

  /** The number of positions in the first `n` pairs. */
  function Total(pairs: seq<int>, n: nat): nat
    requires Paired(pairs) && 2 * n <= |pairs|
  {
    if n == 0 then 0 else Total(pairs, n - 1) + pairs[2 * (n - 1) + 1]
  }

  /** Position `j` of pair `k` comes after those of the earlier pairs and is its start plus `j`. */
  lemma {:induction false} PositionsAre(pairs: seq<int>, n: nat, k: nat, j: nat)
    requires Paired(pairs) && 2 * n <= |pairs| && k < n && j < pairs[2 * k + 1]
    ensures |Positions(pairs, n)| == Total(pairs, n) && Total(pairs, k) + j < Total(pairs, n)
    ensures Positions(pairs, n)[Total(pairs, k) + j] == pairs[2 * k] + j
    decreases n
  {
    PositionCount(pairs, n - 1);
    if k < n - 1 {
      PositionsAre(pairs, n - 1, k, j);
    }
  }

  lemma {:induction false} PositionCount(pairs: seq<int>, n: nat)
    requires Paired(pairs) && 2 * n <= |pairs|
    ensures |Positions(pairs, n)| == Total(pairs, n)
  {
    if n > 0 {
      PositionCount(pairs, n - 1);
    }
  }

  /** The positions handed out are the rows that some pair selects. */
  lemma {:induction false} SelectedExactlyWhen(pairs: seq<int>, n: nat, x: int)
    requires Paired(pairs) && 2 * n <= |pairs|
    ensures x in Positions(pairs, n) <==> exists k :: 0 <= k < n && pairs[2 * k] <= x < pairs[2 * k] + pairs[2 * k + 1]
  {
    if n > 0 {
      SelectedExactlyWhen(pairs, n - 1, x);
      InRange(pairs[2 * (n - 1)], pairs[2 * (n - 1) + 1], x);
    }
  }

  lemma InRange(start: int, count: nat, x: int)
    ensures x in Range(start, count) <==> start <= x < start + count
  {
    if start <= x < start + count {
      assert Range(start, count)[x - start] == x;
    }
  }

  /** The window of `size` elements from `offset`, cut at the end. */
  function Window(s: seq<int>, offset: nat, size: nat): seq<int> {
    s[Min(offset, |s|)..Min(offset + size, |s|)]
  }

  lemma WindowGrows(s: seq<int>, t: seq<int>, offset: nat, size: nat)
    ensures |Window(s, offset, size)| == size ==> Window(s + t, offset, size) == Window(s, offset, size)
    ensures var skipped := Min(offset, |s|);
            var filled := |Window(s, offset, size)|;
            var skip := Min(|t|, offset - skipped);
            var count := Min(|t| - skip, size - filled);
            Window(s + t, offset, size) == Window(s, offset, size) + t[skip..skip + count]
  {
    var skipped := Min(offset, |s|);
    var filled := |Window(s, offset, size)|;
    var skip := Min(|t|, offset - skipped);
    var count := Min(|t| - skip, size - filled);
    var lhs, rhs := Window(s + t, offset, size), Window(s, offset, size) + t[skip..skip + count];
    assert |lhs| == |rhs|;
    forall k | 0 <= k < |lhs|
      ensures lhs[k] == rhs[k]
    {
      assert lhs[k] == (s + t)[offset + k];
    }
  }

  lemma RangeSlice(start: int, count: nat, i: nat, n: nat)
    requires i + n <= count
    ensures Range(start, count)[i..i + n] == Range(start + i, n)
  {
  }

  lemma FlattenAppend(ranges: seq<(int, nat)>, start: int, count: nat)
    ensures Flatten(ranges + [(start, count)]) == Flatten(ranges) + Range(start, count)
  {
    assert (ranges + [(start, count)])[..|ranges|] == ranges;
  }

  /**
    Hands the reader exactly the positions from `offset` on, `batchSize` of them or as many as
    there are, in order, and returns how many.
   */
  method SetIndicesLoop(reader: PositionReader, offset: nat, batchSize: nat, pairs: seq<int>) returns (filled: nat)
    requires Paired(pairs)
    modifies reader
    ensures Flatten(reader.ranges) == Flatten(old(reader.ranges)) + Window(AllPositions(pairs), offset, batchSize)
    ensures filled == |Window(AllPositions(pairs), offset, batchSize)|
  {
    hide Flatten, Window, Range;
    var skipped := 0;
    filled := 0;
    ghost var all := Flatten(reader.ranges);
    WindowStart(offset, batchSize);
    for n := 0 to |pairs| / 2
      invariant skipped == Min(offset, |Positions(pairs, n)|)
      invariant filled == |Window(Positions(pairs, n), offset, batchSize)| <= batchSize
      invariant Flatten(reader.ranges) == all + Window(Positions(pairs, n), offset, batchSize)
    {
      var index := pairs[2 * n];
      var count: nat := pairs[2 * n + 1];
      ghost var before, range := Positions(pairs, n), Range(index, count);
      assert Positions(pairs, n + 1) == before + range;
      WindowGrows(before, range, offset, batchSize);
      var skip := Min(count, offset - skipped);
      skipped := skipped + skip;
      if count == skip {
        assert range[skip..skip + 0] == [];
        WindowSize(before + range, offset, batchSize);
        continue;
      } else if batchSize == filled {
        WindowStays(pairs, n, offset, batchSize);
        break;
      }
      var take := Min(count - skip, batchSize - filled);
      RangeSlice(index, count, skip, take);
      FlattenAppend(reader.ranges, index + skip, take);
      WindowSize(before + range, offset, batchSize);
      filled := filled + take;
      reader.SetPosition(index + skip, take);
    }
  }

  lemma WindowStart(offset: nat, size: nat)
    ensures Window([], offset, size) == []
  {
  }

  lemma WindowSize(s: seq<int>, offset: nat, size: nat)
    ensures |Window(s, offset, size)| <= size
  {
  }

  /** A full window does not change when more pairs follow. */
  lemma WindowStays(pairs: seq<int>, n: nat, offset: nat, size: nat)
    requires Paired(pairs) && 2 * n <= |pairs| && |Window(Positions(pairs, n), offset, size)| == size
    ensures Window(AllPositions(pairs), offset, size) == Window(Positions(pairs, n), offset, size)
  {
    PositionsGrow(pairs, n, |pairs| / 2, offset, size);
  }

  lemma {:induction false} PositionsGrow(pairs: seq<int>, n: nat, m: nat, offset: nat, size: nat)
    requires Paired(pairs) && n <= m && 2 * m <= |pairs| && |Window(Positions(pairs, n), offset, size)| == size
    ensures Window(Positions(pairs, m), offset, size) == Window(Positions(pairs, n), offset, size)
    decreases m
  {
    hide Window, Range;
    if n < m {
      PositionsGrow(pairs, n, m - 1, offset, size);
      WindowGrows(Positions(pairs, m - 1), Range(pairs[2 * m - 2], pairs[2 * (m - 1) + 1]), offset, size);
    }
  }

  /**
    One reader called at offsets 0, b, 2b and so on, until a call fills nothing: it is handed
    every selected position once, in order, whatever the batch size.
   */
  method SetAllIndices(reader: PositionReader, batchSize: nat, pairs: seq<int>) returns (total: nat)
    requires Paired(pairs) && batchSize > 0
    modifies reader
    ensures Flatten(reader.ranges) == Flatten(old(reader.ranges)) + AllPositions(pairs)
    ensures total == |AllPositions(pairs)| == Total(pairs, |pairs| / 2)
  {
    PositionCount(pairs, |pairs| / 2);
    ghost var before, all := Flatten(reader.ranges), AllPositions(pairs);
    assert |all| == Total(pairs, |pairs| / 2);
    hide Flatten, Window, AllPositions, Total;
    var offset, filled := 0, batchSize;
    total := 0;
    while filled > 0
      invariant total == Min(offset, |all|)
      invariant filled == 0 ==> total == |all|
      invariant Flatten(reader.ranges) == before + all[..total]
      decreases |all| - total, filled
    {
      WindowIsNext(all, offset, batchSize);
      filled := SetIndicesLoop(reader, offset, batchSize, pairs);
      total := total + filled;
      offset := offset + batchSize;
    }
  }

  /** Windows of one size at consecutive offsets continue each other. */
  lemma WindowIsNext(s: seq<int>, offset: nat, size: nat)
    requires size > 0
    ensures var n := Min(offset, |s|);
            var m := n + |Window(s, offset, size)|;
            && m == Min(offset + size, |s|) && s[..n] + Window(s, offset, size) == s[..m]
            && (m == n <==> n == |s|)
  {
  }
}
