/**
  Streams that mix packed, byte-aligned, VLQ and zigzag values: whatever a writer accepts, a
  reader of the consumed bytes returns, in order.
 */
module RoundTrip {
  import opened Words
  import opened BitStream
  import opened Wrappers
  import opened Vlq
  import opened BitWriting
  import opened BitReading

  /** One write. */
  datatype Item =
    | Packed(v: u64, width: nat)
    | Aligned(v: u64, numBytes: nat)
    | Varint(u: u64)
    | Zigzag(i: i64)

  /** One read. */
  datatype Shape =
    | PackedShape(width: nat)
    | AlignedShape(numBytes: nat)
    | VarintShape
    | ZigzagShape
    | SkipShape(numBits: nat)

  /** What the writer's assertions demand. */
  predicate Writable(item: Item) {
    match item
    case Packed(v, width) => width <= 64 && v < Pow2(width)
    case Aligned(_, numBytes) => numBytes <= 8
    case _ => true
  }

  predicate Readable(shape: Shape) {
    match shape
    case PackedShape(width) => width <= 64
    case AlignedShape(numBytes) => numBytes <= 8
    case _ => true
  }

  function ShapeOf(item: Item): Shape {
    match item
    case Packed(_, width) => PackedShape(width)
    case Aligned(_, numBytes) => AlignedShape(numBytes)
    case Varint(_) => VarintShape
    case Zigzag(_) => ZigzagShape
  }

  /** What the matching read should return; an aligned write ignores the higher bytes. */
  function ValueOf(item: Item): int {
    match item
    case Packed(v, _) => v
    case Aligned(v, numBytes) => FromBits(ToBits(v, 8 * numBytes))
    case Varint(u) => Signed(u)
    case Zigzag(i) => i
  }

  function Shapes(items: seq<Item>): (r: seq<Shape>)
    ensures |r| == |items|
  {
    if items == [] then [] else [ShapeOf(items[0])] + Shapes(items[1..])
  }

  function Values(items: seq<Item>): (r: seq<Option<int>>)
    ensures |r| == |items|
  {
    if items == [] then [] else [Some(ValueOf(items[0]))] + Values(items[1..])
  }

  function ZigzagOf(i: i64): u64 {
    if i < 0 then -2 * i - 1 else 2 * i
  }

  /** Where an item starts: at once when packed, else at the next byte boundary. */
  function Base(s: seq<bool>, item: Item): (t: seq<bool>)
    ensures s <= t
  {
    if item.Packed? then s else Pad(s)
  }

  /** The bits of an item. */
  function Added(item: Item): seq<bool> {
    match item
    case Packed(v, width) => ToBits(v, width)
    case Aligned(v, numBytes) => ToBits(v, 8 * numBytes)
    case Varint(u) => Bits(VlqBytes(u))
    case Zigzag(i) => Bits(VlqBytes(ZigzagOf(i)))
  }

  /** The stream `s` after one more accepted write. */
  function Emit(s: seq<bool>, item: Item): (t: seq<bool>)
    ensures s <= t
  {
    Base(s, item) + Added(item)
  }

  function EmitAll(s: seq<bool>, items: seq<Item>): (t: seq<bool>)
    ensures s <= t
    decreases |items|
  {
    if items == [] then s else EmitAll(Emit(s, items[0]), items[1..])
  }

  /** What a refused write leaves of the stream `s`: padding, and the bytes of a varint that fit. */
  function Refused(s: seq<bool>, item: Item, maxBytes: nat): (t: seq<bool>)
    requires |s| <= 8 * maxBytes
    ensures s <= t
  {
    match item
    case Packed(_, _) => s
    case Aligned(_, _) => Pad(s)
    case Varint(u) => Pad(s) + Bits(Fitting(VlqBytes(u), RoundUp(|s|) / 8, maxBytes))
    case Zigzag(i) => Pad(s) + Bits(Fitting(VlqBytes(ZigzagOf(i)), RoundUp(|s|) / 8, maxBytes))
  }

  function Fitting(bs: seq<byte>, at: nat, maxBytes: nat): seq<byte>
    requires at <= maxBytes
  {
    bs[..Min(|bs|, maxBytes - at)]
  }

  /** The stream `s` after the first `n` of `items` are accepted and the next one, if any, is refused. */
  function EmitFirst(s: seq<bool>, items: seq<Item>, n: nat, maxBytes: nat): (t: seq<bool>)
    requires n <= |items| && |EmitAll(s, items[..n])| <= 8 * maxBytes
    ensures EmitAll(s, items[..n]) <= t
  {
    var t := EmitAll(s, items[..n]);
    if n == |items| then t else Refused(t, items[n], maxBytes)
  }

  lemma EmitFirstAll(s: seq<bool>, items: seq<Item>, maxBytes: nat)
    requires |EmitAll(s, items)| <= 8 * maxBytes
    ensures items[..|items|] == items && EmitFirst(s, items, |items|, maxBytes) == EmitAll(s, items)
  {
    hide EmitAll;
    assert items[..|items|] == items;
  }

  lemma {:induction false} EmitSplit(s: seq<bool>, a: seq<Item>, b: seq<Item>)
    ensures EmitAll(s, a + b) == EmitAll(EmitAll(s, a), b)
    decreases |a|
  {
    hide Emit;
    if a == [] {
      assert a + b == b;
    } else {
      assert (a + b)[1..] == a[1..] + b;
      EmitSplit(Emit(s, a[0]), a[1..], b);
    }
  }

  /** The first `n` of the items, the next one, and all of them. */
  lemma EmitNext(s: seq<bool>, items: seq<Item>, n: nat)
    requires n < |items|
    ensures EmitAll(s, items[..n + 1]) == Emit(EmitAll(s, items[..n]), items[n])
    ensures EmitAll(s, items[..n + 1]) <= EmitAll(s, items)
  {
    hide Emit;
    assert items[..n + 1] == items[..n] + [items[n]];
    EmitSplit(s, items[..n], [items[n]]);
    assert items == items[..n + 1] + items[n + 1..];
    EmitSplit(s, items[..n + 1], items[n + 1..]);
  }

  /** What the stream means for one read at bit `p` of `bs`: its result, and the position after it. */
  function DecodeOne(bs: seq<byte>, p: nat, shape: Shape): (r: (Option<int>, nat))
    requires p <= 8 * |bs|
    ensures r.1 <= 8 * |bs|
  {
    match shape
    case PackedShape(width) => DecodePacked(bs, p, width)
    case AlignedShape(numBytes) => DecodeAligned(bs, p, numBytes)
    case VarintShape => DecodeVarint(bs, p, false)
    case ZigzagShape => DecodeVarint(bs, p, true)
    case SkipShape(n) => DecodeSkip(bs, p, n)
  }

  function DecodeSkip(bs: seq<byte>, p: nat, n: nat): (r: (Option<int>, nat))
    requires p <= 8 * |bs|
    ensures r.1 <= 8 * |bs|
  {
    var m := Min(n, 8 * |bs| - p);
    (Some(m), p + m)
  }

  function DecodePacked(bs: seq<byte>, p: nat, width: nat): (r: (Option<int>, nat))
    requires p <= 8 * |bs|
    ensures r.1 <= 8 * |bs|
  {
    if p + width > 8 * |bs| then (None, p) else (Some(PackedAt(Bits(bs), p, width)), p + width)
  }

  function DecodeAligned(bs: seq<byte>, p: nat, numBytes: nat): (r: (Option<int>, nat))
    requires p <= 8 * |bs|
    ensures r.1 <= 8 * |bs|
  {
    var q := RoundUp(p);
    if q + 8 * numBytes > 8 * |bs| then (None, p)
    else (Some(PackedAt(Bits(bs), q, 8 * numBytes)), q + 8 * numBytes)
  }

  function DecodeVarint(bs: seq<byte>, p: nat, zigzag: bool): (r: (Option<int>, nat))
    requires p <= 8 * |bs|
    ensures r.1 <= 8 * |bs|
  {
    var q := RoundUp(p);
    var tail := bs[q / 8..];
    match VlqLength(tail)
    case Some(n) => (Some(VarintValue(VlqFold(tail[..n]), zigzag)), q + 8 * n)
    case None => (None, if tail == [] then p else 8 * |bs|)
  }

  function VarintValue(u: u64, zigzag: bool): int {
    if !zigzag then Signed(u) else if u % 2 == 1 then -(u / 2) - 1 else u / 2
  }

  function DecodeAll(bs: seq<byte>, p: nat, shapes: seq<Shape>): (r: seq<Option<int>>)
    requires p <= 8 * |bs|
    ensures |r| == |shapes|
    decreases |shapes|
  {
    if shapes == [] then []
    else
      var (v, q) := DecodeOne(bs, p, shapes[0]);
      [v] + DecodeAll(bs, q, shapes[1..])
  }

  // ----- what the reader returns

  /** The result of one read at `p` when that is bit `k` of the cached word. */
  ghost function Reading(bs: seq<byte>, p: nat, k: nat, shape: Shape): Option<int>
    requires p <= 8 * |bs|
  {
    match shape
    case PackedShape(width) => if p + width > 8 * |bs| then None else Some(ReadAt(Bits(bs), p, k, width))
    case _ => DecodeOne(bs, p, shape).0
  }

  /** The cached bit after one read. */
  function Cached(bs: seq<byte>, p: nat, k: nat, shape: Shape): (r: nat)
    requires p <= 8 * |bs| && k < 64
    ensures r < 64
  {
    match shape
    case PackedShape(width) => if p + width > 8 * |bs| then k else (k + width) % 64
    case AlignedShape(numBytes) => if RoundUp(p) + 8 * numBytes > 8 * |bs| then k else AlignedCache(k, numBytes)
    case SkipShape(n) => SkipCache(k, Min(n, 8 * |bs| - p))
    case _ =>
      var tail := bs[RoundUp(p) / 8..];
      AlignedCaches(k, match VlqLength(tail) case Some(n) => n case None => |tail|)
  }

  ghost function ReadingAll(bs: seq<byte>, p: nat, k: nat, shapes: seq<Shape>): (r: seq<Option<int>>)
    requires p <= 8 * |bs| && k < 64
    ensures |r| == |shapes|
    decreases |shapes|
  {
    if shapes == [] then []
    else
      [Reading(bs, p, k, shapes[0])]
      + ReadingAll(bs, DecodeOne(bs, p, shapes[0]).1, Cached(bs, p, k, shapes[0]), shapes[1..])
  }

  /** No read is 64 bits wide. */
  ghost predicate Narrow(shapes: seq<Shape>) {
    forall i :: 0 <= i < |shapes| ==> shapes[i] != PackedShape(64)
  }

  /** Without 64-bit reads the reader returns what the stream means. */
  lemma {:induction false} ReadingIsDecoding(bs: seq<byte>, p: nat, k: nat, shapes: seq<Shape>)
    requires p <= 8 * |bs| && k < 64 && Narrow(shapes)
    ensures ReadingAll(bs, p, k, shapes) == DecodeAll(bs, p, shapes)
    decreases |shapes|
  {
    if shapes != [] {
      NarrowReading(bs, p, k, shapes[0]);
      hide Reading, DecodeOne, Cached;
      ReadingIsDecoding(bs, DecodeOne(bs, p, shapes[0]).1, Cached(bs, p, k, shapes[0]), shapes[1..]);
    }
  }

  lemma NarrowReading(bs: seq<byte>, p: nat, k: nat, shape: Shape)
    requires p <= 8 * |bs| && shape != PackedShape(64)
    ensures Reading(bs, p, k, shape) == DecodeOne(bs, p, shape).0
  {
    hide Bits, PackedAt, WordAt, Or;
  }

  // ----- decoding undoes emitting

  lemma PrefixAt(s: seq<bool>, t: seq<bool>, u: seq<bool>, stream: seq<bool>)
    requires u == s + t && u <= stream
    ensures |s| + |t| <= |stream| && stream[|s|..|s| + |t|] == t
  {
    assert stream[..|u|] == u;
    assert stream[|s|..|s| + |t|] == stream[..|u|][|s|..];
  }

  lemma VarintTail(bs: seq<byte>, k: nat, g: seq<byte>)
    requires k + |g| <= |bs| && Bits(bs)[8 * k..8 * (k + |g|)] == Bits(g)
    ensures bs[k..] == g + bs[k..][|g|..]
  {
    hide Bits;
    BitsSlice(bs, k, k + |g|);
    BitsInjective(bs[k..k + |g|], g);
    assert bs[k..][..|g|] == bs[k..k + |g|];
  }

  /** A varint whose bytes stand at the next byte boundary is decoded. */
  lemma DecodeVarintAt(bs: seq<byte>, p: nat, u: u64, zigzag: bool)
    requires var g := VlqBytes(u);
             RoundUp(p) + 8 * |g| <= 8 * |bs| && Bits(bs)[RoundUp(p)..RoundUp(p) + 8 * |g|] == Bits(g)
    ensures DecodeVarint(bs, p, zigzag) == (Some(VarintValue(u, zigzag)), RoundUp(p) + 8 * |VlqBytes(u)|)
  {
    hide Bits, VlqBytes, VlqLength, VlqFold, RoundUp, VarintValue;
    var g, k := VlqBytes(u), RoundUp(p) / 8;
    assert RoundUp(p) == 8 * k;
    VarintTail(bs, k, g);
    GroupAtHead(bs[k..], u);
  }

  lemma GroupAtHead(tail: seq<byte>, u: u64)
    requires |VlqBytes(u)| <= |tail| && tail == VlqBytes(u) + tail[|VlqBytes(u)|..]
    ensures VlqLength(tail) == Some(|VlqBytes(u)|) && VlqFold(tail[..|VlqBytes(u)|]) == u
  {
    hide VlqBytes, VlqLength, VlqFold;
    var g := VlqBytes(u);
    VlqRoundTrip(u, tail[|g|..]);
    assert tail[..|g|] == g;
  }

  lemma DecodePackedAt(bs: seq<byte>, p: nat, v: u64, width: nat)
    requires v < Pow2(width) && p + width <= 8 * |bs| && Bits(bs)[p..p + width] == ToBits(v, width)
    ensures DecodePacked(bs, p, width) == (Some(v), p + width)
  {
    hide Bits, ToBits;
    FromToBits(v, width);
  }

  lemma DecodeAlignedAt(bs: seq<byte>, p: nat, v: u64, numBytes: nat)
    requires RoundUp(p) + 8 * numBytes <= 8 * |bs|
    requires Bits(bs)[RoundUp(p)..RoundUp(p) + 8 * numBytes] == ToBits(v, 8 * numBytes)
    ensures DecodeAligned(bs, p, numBytes) == (Some(FromBits(ToBits(v, 8 * numBytes))), RoundUp(p) + 8 * numBytes)
  {
    hide Bits, ToBits, RoundUp;
  }

  /** The bits of `item` stand where it starts when the reader is at `p`. */
  ghost predicate Stands(bs: seq<byte>, p: nat, item: Item) {
    var q, a := Start(p, item), Added(item);
    q + |a| <= 8 * |bs| && Bits(bs)[q..q + |a|] == a
  }

  function Start(p: nat, item: Item): nat {
    if item.Packed? then p else RoundUp(p)
  }

  /** An item whose bits stand at its start is decoded. */
  lemma DecodeAt(bs: seq<byte>, p: nat, item: Item)
    requires Writable(item) && p <= 8 * |bs| && Stands(bs, p, item)
    ensures DecodeOne(bs, p, ShapeOf(item)) == (Some(ValueOf(item)), Start(p, item) + |Added(item)|)
  {
    hide Bits, VlqBytes, Pow2, ToBits, FromBits, RoundUp, DecodePacked, DecodeAligned, DecodeVarint, VarintValue;
    match item
    case Packed(v, width) => DecodePackedAt(bs, p, v, width);
    case Aligned(v, numBytes) => DecodeAlignedAt(bs, p, v, numBytes);
    case Varint(u) =>
      DecodeVarintAt(bs, p, u, false);
      VarintOfItem(item);
    case Zigzag(i) =>
      DecodeVarintAt(bs, p, ZigzagOf(i), true);
      VarintOfItem(item);
  }

  /** Reading where an item was written returns its value and ends where it ends. */
  lemma DecodeEmitted(bs: seq<byte>, s: seq<bool>, item: Item)
    requires Writable(item) && Emit(s, item) <= Bits(bs)
    ensures |s| <= 8 * |bs|
    ensures DecodeOne(bs, |s|, ShapeOf(item)) == (Some(ValueOf(item)), |Emit(s, item)|)
  {
    hide Bits, Added, DecodeOne, ValueOf, ShapeOf, Writable, Emit, Stands;
    StandsBehind(bs, s, item);
    DecodeAt(bs, |s|, item);
    EmittedLength(s, item);
  }

  lemma StandsBehind(bs: seq<byte>, s: seq<bool>, item: Item)
    requires Emit(s, item) <= Bits(bs)
    ensures |s| <= 8 * |bs| && Stands(bs, |s|, item)
  {
    EmitParts(s, item);
    BaseLength(s, item);
    hide Bits, Added, Base, Emit, Stands, Start;
    PrefixAt(Base(s, item), Added(item), Emit(s, item), Bits(bs));
    StandsAt(bs, |s|, item, |Base(s, item)|, Added(item));
  }

  lemma StandsAt(bs: seq<byte>, p: nat, item: Item, q: nat, a: seq<bool>)
    requires q == Start(p, item) && a == Added(item)
    requires q + |a| <= |Bits(bs)| && Bits(bs)[q..q + |a|] == a
    ensures Stands(bs, p, item)
  {
    hide Bits, Added, Start;
  }

  lemma EmitParts(s: seq<bool>, item: Item)
    ensures Emit(s, item) == Base(s, item) + Added(item)
  {
  }

  lemma BaseLength(s: seq<bool>, item: Item)
    ensures |Base(s, item)| == Start(|s|, item) >= |s|
  {
  }

  lemma VarintOfItem(item: Item)
    ensures item.Varint? ==> VarintValue(item.u, false) == ValueOf(item)
    ensures item.Zigzag? ==> VarintValue(ZigzagOf(item.i), true) == ValueOf(item)
  {
  }

  /** Everything emitted behind `s` is decoded from there, whatever follows. */
  lemma {:induction false} DecodeAllEmitted(bs: seq<byte>, s: seq<bool>, items: seq<Item>)
    requires forall k :: 0 <= k < |items| ==> Writable(items[k])
    requires EmitAll(s, items) <= Bits(bs)
    ensures |s| <= 8 * |bs| && DecodeAll(bs, |s|, Shapes(items)) == Values(items)
    decreases |items|
  {
    hide Bits, DecodeOne, Emit;
    if items != [] {
      var t := Emit(s, items[0]);
      DecodeEmitted(bs, s, items[0]);
      DecodeAllEmitted(bs, t, items[1..]);
      assert Shapes(items)[1..] == Shapes(items[1..]);
    }
  }

  // ----- skipping

  /** `n` single-bit reads. */
  function Discard(n: nat): (r: seq<Shape>)
    ensures |r| == n
  {
    if n == 0 then [] else [PackedShape(1)] + Discard(n - 1)
  }

  /**
    Skipping `n` bits leaves the meaning of every later read as it is after reading and
    discarding them one by one, also when fewer than `n` bits are left. It leaves what the reader
    returns, too, when no later read is 64 bits wide or both ways end at the same cached bit.
   */
  lemma SkipIsDiscard(bs: seq<byte>, p: nat, k: nat, n: nat, shapes: seq<Shape>)
    requires p <= 8 * |bs| && k < 64
    ensures DecodeAll(bs, p, [SkipShape(n)] + shapes)[1..] == DecodeAll(bs, p, Discard(n) + shapes)[n..]
    ensures var m := Min(n, 8 * |bs| - p);
            Narrow(shapes) || SkipCache(k, m) == (k + m) % 64 ==>
              ReadingAll(bs, p, k, [SkipShape(n)] + shapes)[1..] == ReadingAll(bs, p, k, Discard(n) + shapes)[n..]
  {
    hide DecodeAll, DecodePacked, Bits, ReadingAll, SkipCache;
    DecodeCons(bs, p, SkipShape(n), shapes);
    DecodeAfterDiscard(bs, p, n, shapes);
    ReadingCons(bs, p, k, SkipShape(n), shapes);
    ReadingAfterDiscard(bs, p, k, n, shapes);
    if Narrow(shapes) {
      DiscardIsNarrow(n);
      assert Narrow(Discard(n) + shapes) && Narrow([SkipShape(n)] + shapes);
      ReadingIsDecoding(bs, p, k, [SkipShape(n)] + shapes);
      ReadingIsDecoding(bs, p, k, Discard(n) + shapes);
    }
  }

  lemma ReadingCons(bs: seq<byte>, p: nat, k: nat, shape: Shape, shapes: seq<Shape>)
    requires p <= 8 * |bs| && k < 64
    ensures ReadingAll(bs, p, k, [shape] + shapes)[1..]
            == ReadingAll(bs, DecodeOne(bs, p, shape).1, Cached(bs, p, k, shape), shapes)
  {
    hide DecodeOne, Reading, Cached;
    assert ([shape] + shapes)[1..] == shapes;
  }

  lemma {:induction false} ReadingAfterDiscard(bs: seq<byte>, p: nat, k: nat, n: nat, shapes: seq<Shape>)
    requires p <= 8 * |bs| && k < 64
    ensures var m := Min(n, 8 * |bs| - p);
            ReadingAll(bs, p, k, Discard(n) + shapes)[n..] == ReadingAll(bs, p + m, (k + m) % 64, shapes)
    decreases n
  {
    hide ReadingAll, DecodeOne, Cached, Discard;
    DiscardParts(n);
    if n == 0 {
      assert Discard(n) + shapes == shapes;
    } else {
      var rest := Discard(n - 1) + shapes;
      assert Discard(n) + shapes == [PackedShape(1)] + rest;
      OneBitRead(bs, p, k);
      ReadingCons(bs, p, k, PackedShape(1), rest);
      if p < 8 * |bs| {
        ReadingAfterDiscard(bs, p + 1, (k + 1) % 64, n - 1, shapes);
        NextCached(k, Min(n - 1, 8 * |bs| - (p + 1)));
      } else {
        ReadingAfterDiscard(bs, p, k, n - 1, shapes);
      }
      SuffixOfSuffix(ReadingAll(bs, p, k, Discard(n) + shapes), 1, n - 1);
    }
  }

  lemma DiscardParts(n: nat)
    ensures Discard(n) == if n == 0 then [] else [PackedShape(1)] + Discard(n - 1)
  {
  }

  lemma OneBitRead(bs: seq<byte>, p: nat, k: nat)
    requires p <= 8 * |bs| && k < 64
    ensures DecodeOne(bs, p, PackedShape(1)).1 == if p < 8 * |bs| then p + 1 else p
    ensures Cached(bs, p, k, PackedShape(1)) == if p < 8 * |bs| then (k + 1) % 64 else k
  {
    hide Bits, PackedAt;
  }

  lemma NextCached(k: nat, m: nat)
    ensures ((k + 1) % 64 + m) % 64 == (k + (m + 1)) % 64
  {
  }

  lemma {:induction false} DiscardIsNarrow(n: nat)
    ensures Narrow(Discard(n))
  {
    if n > 0 {
      DiscardIsNarrow(n - 1);
    }
  }

  lemma DecodeCons(bs: seq<byte>, p: nat, shape: Shape, shapes: seq<Shape>)
    requires p <= 8 * |bs|
    ensures var (v, q) := DecodeOne(bs, p, shape);
            && DecodeAll(bs, p, [shape] + shapes) == [v] + DecodeAll(bs, q, shapes)
            && DecodeAll(bs, p, [shape] + shapes)[1..] == DecodeAll(bs, q, shapes)
  {
    hide DecodeOne;
    assert ([shape] + shapes)[1..] == shapes;
  }

  lemma {:induction false} DecodeAfterDiscard(bs: seq<byte>, p: nat, n: nat, shapes: seq<Shape>)
    requires p <= 8 * |bs|
    ensures DecodeAll(bs, p, Discard(n) + shapes)[n..] == DecodeAll(bs, p + Min(n, 8 * |bs| - p), shapes)
    decreases n
  {
    hide DecodeAll, Bits, PackedAt;
    if n == 0 {
      assert Discard(n) + shapes == shapes;
    } else {
      var q := DecodePacked(bs, p, 1).1;
      var rest := Discard(n - 1) + shapes;
      assert Discard(n) + shapes == [PackedShape(1)] + rest;
      DecodeCons(bs, p, PackedShape(1), rest);
      DecodeAfterDiscard(bs, q, n - 1, shapes);
      SuffixOfSuffix(DecodeAll(bs, p, Discard(n) + shapes), 1, n - 1);
    }
  }

  // ----- writer and reader

  /** One write; `ok` exactly when the stream with the item fits, else only a part of it is left. */
  method WriteOne(w: BitWriter, item: Item) returns (ok: bool)
    requires w.Valid() && Writable(item)
    modifies w, w.buffer
    ensures w.Valid() && w.buffer == old(w.buffer) && w.maxBytes == old(w.maxBytes) && w.byteOffset >= old(w.byteOffset)
    ensures ok == (|Emit(old(w.Contents()), item)| <= 8 * w.maxBytes)
    ensures |old(w.Contents())| <= 8 * w.maxBytes
    ensures w.Contents()
            == if ok then Emit(old(w.Contents()), item) else Refused(old(w.Contents()), item, w.maxBytes)
  {
    hide Written, Bits, VlqBytes, Pow2, ToBits;
    match item
    case Packed(v, width) => ok := w.PutValue(v, width);
    case Aligned(v, numBytes) => ok := w.PutAligned(v, numBytes);
    case Varint(u) => ok := w.PutVlqInt(u);
    case Zigzag(i) => ok := w.PutZigzagVlqInt(i);
  }

  /**
    Writes until the first refusal. The `n` items accepted are the longest prefix that fits; the
    stream is theirs, followed by what the refused write leaves.
   */
  method WriteAll(w: BitWriter, items: seq<Item>) returns (n: nat)
    requires w.Valid() && forall k :: 0 <= k < |items| ==> Writable(items[k])
    modifies w, w.buffer
    ensures w.Valid() && w.buffer == old(w.buffer) && w.maxBytes == old(w.maxBytes) && w.byteOffset >= old(w.byteOffset)
    ensures n <= |items| && |EmitAll(old(w.Contents()), items[..n])| <= 8 * w.maxBytes
    ensures n < |items| ==> |EmitAll(old(w.Contents()), items[..n + 1])| > 8 * w.maxBytes
    ensures n == |items| <==> |EmitAll(old(w.Contents()), items)| <= 8 * w.maxBytes
    ensures w.Contents() == EmitFirst(old(w.Contents()), items, n, w.maxBytes)
  {
    hide Written, Bits, Emit, Refused, Pow2, ToBits;
    ghost var s := w.Contents();
    n := 0;
    while n < |items|
      invariant n <= |items|
      invariant w.Valid() && w.buffer == old(w.buffer) && w.maxBytes == old(w.maxBytes)
        && w.byteOffset >= old(w.byteOffset)
      invariant w.Contents() == EmitAll(s, items[..n])
    {
      EmitNext(s, items, n);
      var ok := WriteOne(w, items[n]);
      if !ok {
        return;
      }
      n := n + 1;
    }
    assert items[..n] == items;
  }

  /** What is emitted behind a stream depends on its length only. */
  ghost predicate SameTail(s: seq<bool>, t: seq<bool>, s': seq<bool>, t': seq<bool>) {
    |s| == |t| && |s'| == |t'| && |s| <= |s'| && s'[..|s|] == s && t'[..|t|] == t && s'[|s|..] == t'[|t|..]
  }

  lemma SameTailEmit(s: seq<bool>, t: seq<bool>, item: Item)
    requires |s| == |t|
    ensures SameTail(s, t, Emit(s, item), Emit(t, item))
  {
    hide Added, SameTail, RoundUp;
    var a := Added(item);
    var z := if item.Packed? then [] else Zeros(RoundUp(|s|) - |s|);
    EmittedBehind(s, item, z, a);
    EmittedBehind(t, item, z, a);
    SameTailAppend(s, t, z + a);
  }

  lemma EmittedBehind(s: seq<bool>, item: Item, z: seq<bool>, a: seq<bool>)
    requires a == Added(item) && z == if item.Packed? then [] else Zeros(RoundUp(|s|) - |s|)
    ensures Emit(s, item) == s + (z + a)
  {
    hide Added, Zeros, RoundUp;
    assert s + z + a == s + (z + a);
  }

  lemma SameTailAppend(s: seq<bool>, t: seq<bool>, x: seq<bool>)
    requires |s| == |t|
    ensures SameTail(s, t, s + x, t + x)
  {
  }

  lemma SameTailTrans(s: seq<bool>, t: seq<bool>, s1: seq<bool>, t1: seq<bool>, s2: seq<bool>, t2: seq<bool>)
    requires SameTail(s, t, s1, t1) && SameTail(s1, t1, s2, t2)
    ensures SameTail(s, t, s2, t2)
  {
    var a, b := s1[|s|..], s2[|s1|..];
    assert s1 == s + a && t1 == t + a && s2 == s1 + b && t2 == t1 + b;
    assert s2 == s + (a + b) && t2 == t + (a + b);
  }

  lemma {:induction false} SameTailEmitAll(s: seq<bool>, t: seq<bool>, items: seq<Item>)
    requires |s| == |t|
    ensures SameTail(s, t, EmitAll(s, items), EmitAll(t, items))
    decreases |items|
  {
    if items != [] {
      hide Emit, SameTail;
      var s1, t1 := Emit(s, items[0]), Emit(t, items[0]);
      SameTailEmit(s, t, items[0]);
      SameTailLength(s, t, s1, t1);
      SameTailEmitAll(s1, t1, items[1..]);
      SameTailTrans(s, t, s1, t1, EmitAll(s1, items[1..]), EmitAll(t1, items[1..]));
    }
  }

  lemma SameTailLength(s: seq<bool>, t: seq<bool>, s': seq<bool>, t': seq<bool>)
    requires SameTail(s, t, s', t')
    ensures |s'| == |t'|
  {
  }

  /** Filling a hole behind `p` leaves the stream that has the value there from the start. */
  lemma HoleFilled(p: seq<bool>, hole: seq<bool>, bits: seq<bool>, items: seq<Item>)
    requires |hole| == |bits|
    ensures var s := EmitAll(p + hole, items);
            var q := |p| + |bits|;
            && |s| == |EmitAll(p + bits, items)| >= q
            && s[..|p|] + bits + s[q..] == EmitAll(p + bits, items)
  {
    hide EmitAll;
    SameTailEmitAll(p + hole, p + bits, items);
    var s, t := EmitAll(p + hole, items), EmitAll(p + bits, items);
    assert s[..|p|] == s[..|p + hole|][..|p|] == p;
  }

  lemma EmitAligned(s: seq<bool>, v: u64, numBytes: nat)
    ensures Emit(s, Aligned(v, numBytes)) == Pad(s) + ToBits(v, 8 * numBytes)
    ensures |Pad(s)| % 8 == 0
  {
  }

  /**
    A length field written last: the bytes are jumped over, everything behind them is written,
    then they are filled in. The stream is the one of writing them in place, and it is accepted
    exactly when that one fits.
   */
  method WriteBackPatched(w: BitWriter, v: u64, numBytes: nat, items: seq<Item>) returns (ok: bool)
    requires w.Valid() && numBytes <= 8 && forall k :: 0 <= k < |items| ==> Writable(items[k])
    modifies w, w.buffer
    ensures w.Valid() && w.maxBytes == old(w.maxBytes)
    ensures var all := EmitAll(Emit(old(w.Contents()), Aligned(v, numBytes)), items);
            && ok == (|all| <= 8 * w.maxBytes)
            && (ok ==> w.Contents() == all)
  {
    hide Written, Bits, ToBits, EmitAll, EmitFirst, RoundUp, Pow2, Pad, Emit, Writable, Overwrite, LeBytes;
    ghost var p, bits := Pad(w.Contents()), ToBits(v, 8 * numBytes);
    EmitAligned(w.Contents(), v, numBytes);
    var at := w.Skip(numBytes);
    if at.None? {
      return false;
    }
    ghost var hole := w.Contents()[|p|..];
    assert w.Contents() == p + hole;
    HoleFilled(p, hole, bits, items);
    var n := WriteAll(w, items);
    ok := n == |items|;
    if ok {
      EmitFirstAll(p + hole, items, w.maxBytes);
      ok := w.PutAlignedOffset(v, numBytes, at.value);
    }
  }

  /** One read on every byte string, at every position and cached bit. */
  method ReadOne(r: BitReader, shape: Shape) returns (v: Option<int>)
    requires r.Valid() && r.totalBytes == |r.buffer| && Readable(shape)
    modifies r`bufferedValues, r`byteOffset, r`bitOffset
    ensures r.Valid()
    ensures v == Reading(r.buffer, old(r.Pos()), old(r.bitOffset), shape)
    ensures r.Pos() == DecodeOne(r.buffer, old(r.Pos()), shape).1
    ensures r.bitOffset == Cached(r.buffer, old(r.Pos()), old(r.bitOffset), shape)
  {
    hide Bits, WordAt, VlqLength, VlqFold, PackedAt, ReadAt, AlignedCache, AlignedCaches, SkipCache;
    assert r.buffer[..r.totalBytes] == r.buffer;
    assert r.Tail() == r.buffer[RoundUp(r.Pos()) / 8..];
    match shape
    case PackedShape(width) =>
      var x := r.GetValue(width);
      v := if x.None? then None else Some(x.value);
    case AlignedShape(numBytes) =>
      var x := r.GetAligned(numBytes);
      v := if x.None? then None else Some(x.value);
    case VarintShape =>
      var x := r.GetVlqInt();
      v := if x.None? then None else Some(x.value);
    case ZigzagShape =>
      var x := r.GetZigzagVlqInt();
      v := if x.None? then None else Some(x.value);
    case SkipShape(n) =>
      var m := r.SkipBits(n);
      v := Some(m);
  }

  method ReadAll(r: BitReader, shapes: seq<Shape>) returns (vs: seq<Option<int>>)
    requires r.Valid() && r.totalBytes == |r.buffer|
    requires forall k :: 0 <= k < |shapes| ==> Readable(shapes[k])
    modifies r`bufferedValues, r`byteOffset, r`bitOffset
    ensures r.Valid() && vs == ReadingAll(r.buffer, old(r.Pos()), old(r.bitOffset), shapes)
  {
    hide Bits, WordAt, Reading, Cached, DecodeOne;
    vs := [];
    ghost var all := ReadingAll(r.buffer, r.Pos(), r.bitOffset, shapes);
    for n := 0 to |shapes|
      invariant r.Valid() && |vs| == n
      invariant vs + ReadingAll(r.buffer, r.Pos(), r.bitOffset, shapes[n..]) == all
    {
      assert shapes[n..][1..] == shapes[n + 1..];
      var v := ReadOne(r, shapes[n]);
      vs := vs + [v];
    }
  }

  // ----- reading back what was written

  /** The cached bit after an item is read. */
  function AfterItem(k: nat, item: Item): (r: nat)
    requires k < 64
    ensures r < 64
  {
    match item
    case Packed(_, width) => (k + width) % 64
    case Aligned(_, numBytes) => AlignedCache(k, numBytes)
    case Varint(u) => AlignedCaches(k, |VlqBytes(u)|)
    case Zigzag(i) => AlignedCaches(k, |VlqBytes(ZigzagOf(i))|)
  }

  /** A 64-bit read from the start of a cached word, which comes merged with what follows. */
  predicate Merges(k: nat, item: Item) {
    item.Packed? && item.width == 64 && k == 0
  }

  /** What is read back of an item behind `s` in the whole stream `all`. */
  ghost function ReadBack(s: seq<bool>, k: nat, item: Item, all: seq<bool>): int {
    if Merges(k, item) then Or(WordAt(all, |s| + 64), item.v) else ValueOf(item)
  }

  ghost function ReadBackAll(s: seq<bool>, k: nat, items: seq<Item>, all: seq<bool>): (r: seq<Option<int>>)
    requires k < 64
    ensures |r| == |items|
    decreases |items|
  {
    if items == [] then []
    else
      [Some(ReadBack(s, k, items[0], all))]
      + ReadBackAll(Emit(s, items[0]), AfterItem(k, items[0]), items[1..], all)
  }

  lemma WordPadded(all: seq<bool>, q: nat)
    ensures WordAt(Pad(all), q) == WordAt(all, q)
  {
    hide Bit, WordAt;
    WordsEqual(WordAt(Pad(all), q), WordAt(all, q));
  }

  lemma WholeWord(s: seq<bool>, p: nat)
    requires p + 64 <= |s|
    ensures WordAt(s, p) == PackedAt(s, p, 64)
  {
    hide Bit, WordAt, PackedAt;
    WordIsPacked(s, p, 64, WordAt(s, p));
  }

  /** An emitted item is read back, and leaves the cached bit where the item says. */
  lemma ReadEmitted(bs: seq<byte>, s: seq<bool>, k: nat, item: Item, all: seq<bool>)
    requires Writable(item) && k < 64 && Emit(s, item) <= all && Bits(bs) == Pad(all)
    ensures |s| <= 8 * |bs|
    ensures Reading(bs, |s|, k, ShapeOf(item)) == Some(ReadBack(s, k, item, all))
    ensures DecodeOne(bs, |s|, ShapeOf(item)).1 == |Emit(s, item)|
    ensures Cached(bs, |s|, k, ShapeOf(item)) == AfterItem(k, item)
  {
    hide Bits, Emit, WordAt, Or, PackedAt, VlqBytes, VlqLength, VlqFold, RoundUp, AlignedCache, AlignedCaches,
      FromBits, ToBits, Pad, Pow2, VarintValue;
    DecodeEmitted(bs, s, item);
    if Merges(k, item) {
      WordPadded(all, |s| + 64);
      WholeWord(Bits(bs), |s|);
    } else {
      NarrowRead(bs, |s|, k, item);
    }
    CachedEmitted(bs, s, k, item);
  }

  lemma NarrowRead(bs: seq<byte>, p: nat, k: nat, item: Item)
    requires p <= 8 * |bs| && !Merges(k, item)
    ensures Reading(bs, p, k, ShapeOf(item)) == DecodeOne(bs, p, ShapeOf(item)).0
  {
    hide Bits, WordAt, Or, PackedAt, VlqLength, VlqFold;
  }

  lemma CachedEmitted(bs: seq<byte>, s: seq<bool>, k: nat, item: Item)
    requires Writable(item) && k < 64 && |s| <= 8 * |bs|
    requires DecodeOne(bs, |s|, ShapeOf(item)) == (Some(ValueOf(item)), |Emit(s, item)|)
    ensures Cached(bs, |s|, k, ShapeOf(item)) == AfterItem(k, item)
  {
    hide Bits, PackedAt, VlqBytes, VlqLength, VlqFold, AlignedCache, AlignedCaches, FromBits, ToBits, Pow2, VarintValue;
    EmittedLength(s, item);
  }

  lemma EmittedLength(s: seq<bool>, item: Item)
    ensures |Emit(s, item)| == Start(|s|, item) + |Added(item)|
    ensures item.Varint? ==> |Added(item)| == 8 * |VlqBytes(item.u)|
    ensures item.Zigzag? ==> |Added(item)| == 8 * |VlqBytes(ZigzagOf(item.i))|
  {
    hide VlqBytes, Bits, ToBits;
  }

  lemma {:induction false} ReadAllEmitted(bs: seq<byte>, s: seq<bool>, k: nat, items: seq<Item>, all: seq<bool>)
    requires forall j :: 0 <= j < |items| ==> Writable(items[j])
    requires k < 64 && EmitAll(s, items) <= all && Bits(bs) == Pad(all)
    ensures |s| <= 8 * |bs|
    ensures ReadingAll(bs, |s|, k, Shapes(items)) == ReadBackAll(s, k, items, all)
    decreases |items|
  {
    hide Bits, Emit, Reading, Cached, DecodeOne, ReadBack, AfterItem, Pad;
    if items == [] {
      PadGrows(all);
    } else {
      var t := Emit(s, items[0]);
      ReadEmitted(bs, s, k, items[0], all);
      ReadAllEmitted(bs, t, AfterItem(k, items[0]), items[1..], all);
      assert Shapes(items)[1..] == Shapes(items[1..]);
    }
  }

  lemma PadGrows(s: seq<bool>)
    ensures |s| <= |Pad(s)|
  {
  }

  /** Every bit of the word that follows a merged read is set in its value already. */
  ghost predicate Uncorrupted(s: seq<bool>, k: nat, items: seq<Item>, all: seq<bool>)
    requires k < 64
    decreases |items|
  {
    items == []
    || (&& (Merges(k, items[0]) ==> Within(WordAt(all, |s| + 64), items[0].v))
        && Uncorrupted(Emit(s, items[0]), AfterItem(k, items[0]), items[1..], all))
  }

  ghost predicate Within(a: u64, b: u64) {
    forall i: nat :: i < 64 && Bit(a, i) ==> Bit(b, i)
  }

  lemma OrAbsorbs(a: u64, b: u64)
    ensures Or(a, b) == b <==> Within(a, b)
  {
    hide Bit, Or;
    if Within(a, b) {
      WordsEqual(Or(a, b), b);
    } else {
      var i: nat :| i < 64 && Bit(a, i) && !Bit(b, i);
      assert Bit(Or(a, b), i);
    }
  }

  /** Exactly the uncorrupted streams are read back as they were written. */
  lemma {:induction false} ReadsBackExactlyWhen(s: seq<bool>, k: nat, items: seq<Item>, all: seq<bool>)
    requires k < 64
    ensures ReadBackAll(s, k, items, all) == Values(items) <==> Uncorrupted(s, k, items, all)
    decreases |items|
  {
    hide Emit, AfterItem, WordAt, Or, Within;
    if items != [] {
      var t, k' := Emit(s, items[0]), AfterItem(k, items[0]);
      ReadsBackExactlyWhen(t, k', items[1..], all);
      if items[0].Packed? {
        OrAbsorbs(WordAt(all, |s| + 64), items[0].v);
      }
      ConsEqual(Some(ReadBack(s, k, items[0], all)), ReadBackAll(t, k', items[1..], all),
                Some(ValueOf(items[0])), Values(items[1..]));
    }
  }

  lemma ConsEqual<T>(a: T, s: seq<T>, b: T, t: seq<T>)
    ensures [a] + s == [b] + t <==> a == b && s == t
  {
    if [a] + s == [b] + t {
      assert ([a] + s)[0] == a && ([b] + t)[0] == b;
      assert ([a] + s)[1..] == s && ([b] + t)[1..] == t;
    }
  }

  lemma {:induction false} NarrowIsUncorrupted(s: seq<bool>, k: nat, items: seq<Item>, all: seq<bool>)
    requires k < 64 && forall j :: 0 <= j < |items| && items[j].Packed? ==> items[j].width < 64
    ensures Uncorrupted(s, k, items, all)
    decreases |items|
  {
    hide Emit, AfterItem;
    if items != [] {
      NarrowIsUncorrupted(Emit(s, items[0]), AfterItem(k, items[0]), items[1..], all);
    }
  }

  /**
    A 64-bit write is read back for every value exactly when it does not start a cached word or
    the 64 bits behind it are zero.
   */
  lemma WideReadsBackExactlyWhen(s: seq<bool>, k: nat, rest: seq<Item>)
    ensures (forall v: u64 :: ReadBack(s, k, Packed(v, 64), EmitAll(s + ToBits(v, 64), rest)) == v)
            <==> k != 0 || WordAt(EmitAll(s + Zeros(64), rest), |s| + 64) == 0
  {
    hide WordAt, Or, EmitAll, Bit, ToBits;
    var next := WordAt(EmitAll(s + Zeros(64), rest), |s| + 64);
    forall v: u64
      ensures WordAt(EmitAll(s + ToBits(v, 64), rest), |s| + 64) == next
    {
      SameTailEmitAll(s + ToBits(v, 64), s + Zeros(64), rest);
      WordOfTail(EmitAll(s + ToBits(v, 64), rest), EmitAll(s + Zeros(64), rest), |s| + 64);
    }
    if next == 0 {
      forall v: u64
        ensures Or(next, v) == v
      {
        NothingAdded(v);
      }
    } else {
      NothingMerged(next);
      var v: u64 := 0;
      assert ReadBack(s, 0, Packed(v, 64), EmitAll(s + ToBits(v, 64), rest)) == Or(next, v);
    }
  }

  lemma NothingAdded(v: u64)
    ensures Or(0, v) == v
  {
    hide Or;
    ZeroHasNoBits();
    WordsEqual(Or(0, v), v);
  }

  lemma NothingMerged(a: u64)
    ensures Or(a, 0) == a
  {
    hide Or;
    ZeroHasNoBits();
    WordsEqual(Or(a, 0), a);
  }

  lemma WordOfTail(x: seq<bool>, y: seq<bool>, q: nat)
    requires |x| == |y| && q <= |x| && x[q..] == y[q..]
    ensures WordAt(x, q) == WordAt(y, q)
  {
    hide Bit, WordAt;
    forall i: nat | i < 64
      ensures Bit(WordAt(x, q), i) == Bit(WordAt(y, q), i)
    {
      if q + i < |x| {
        assert x[q..][i] == x[q + i] && y[q..][i] == y[q + i];
      }
    }
    WordsEqual(WordAt(x, q), WordAt(y, q));
  }

  /**
    The mixed-stream round trip, for every sequence of writes into a fresh writer: all are
    accepted exactly when the stream fits. The matching reads of the consumed bytes return the
    values accepted, also after a refusal, exactly when no 64-bit read from the start of a cached
    word picks up bits of what follows. Streams without 64-bit values are always read back.
   */
  method WriteThenRead(items: seq<Item>, maxBytes: nat) returns (n: nat, vs: seq<Option<int>>)
    requires forall k :: 0 <= k < |items| ==> Writable(items[k])
    ensures n <= |items| && |EmitAll([], items[..n])| <= 8 * maxBytes
    ensures n < |items| ==> |EmitAll([], items[..n + 1])| > 8 * maxBytes
    ensures n == |items| <==> |EmitAll([], items)| <= 8 * maxBytes
    ensures var stream := EmitFirst([], items, n, maxBytes);
            && vs == ReadBackAll([], 0, items[..n], stream)
            && (vs == Values(items[..n]) <==> Uncorrupted([], 0, items[..n], stream))
    ensures (forall k :: 0 <= k < n && items[k].Packed? ==> items[k].width < 64) ==> vs == Values(items[..n])
  {
    hide Bits, Written, Emit, EmitAll, EmitFirst, WordAt, DecodeOne, Reading, Cached, ReadBackAll, ReadingAll,
      Uncorrupted, Pow2, Pad;
    var w := new BitWriter(maxBytes);
    n := WriteAll(w, items);
    ghost var stream := EmitFirst([], items, n, maxBytes);
    var accepted := items[..n];
    var bytes := w.Consume();
    ReadAllEmitted(bytes, [], 0, accepted, stream);
    ReadsBackExactlyWhen([], 0, accepted, stream);
    if forall k :: 0 <= k < n && items[k].Packed? ==> items[k].width < 64 {
      NarrowIsUncorrupted([], 0, accepted, stream);
    }
    var r := new BitReader(bytes, |bytes|);
    ShapesReadable(accepted);
    assert bytes[..|bytes|] == bytes;
    vs := ReadAll(r, Shapes(accepted));
  }

  lemma {:induction false} ShapesReadable(items: seq<Item>)
    requires forall k :: 0 <= k < |items| ==> Writable(items[k])
    ensures forall k :: 0 <= k < |items| ==> Readable(Shapes(items)[k])
  {
    if items != [] {
      ShapesReadable(items[1..]);
    }
  }
}
