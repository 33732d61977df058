/**
  Nested list literals as Arrow list arrays: offsets, child values and a validity mask, built
  by a loop that recurses into the children.
 */
module ListLiteral {
  import opened Wrappers

  /** Data types; a list type says whether its elements may be null. */
  datatype Ty = Prim | Unsupported | List(elem: Ty, nullable: bool)

  /** A list literal: primitive values or nested literals, with one validity flag a slot. */
  datatype Literal = Literal(prims: seq<int>, lists: seq<Literal>, nullMask: seq<bool>)

  const DEFAULT := Literal([], [], [])

  /** A primitive array, or a list array over its child values; a set flag means valid. */
  datatype Arr =
    | PrimArr(leaf: Ty, prims: seq<int>, valid: seq<bool>)
    | ListArr(elem: Ty, nullable: bool, offsets: seq<nat>, values: Arr, valid: seq<bool>)

  datatype Error = NotSupported | MixedTypes

  /** What a slot means. */
  datatype Value = Null | Int(i: int) | Items(items: seq<Value>)

  function TypeOf(a: Arr): Ty {
    match a
    case PrimArr(leaf, _, _) => leaf
    case ListArr(elem, nullable, _, _, _) => List(elem, nullable)
  }

  /** The element type that the literal for a data type spells out. */
  function Elem(t: Ty): Ty {
    if t.List? then t.elem else t
  }

  // ----- the layout and how it is read

  /** Offsets start at 0, never decrease and end at the length of the child values. */
  predicate GoodOffsets(offsets: seq<nat>, slots: nat, len: nat) {
    && |offsets| == slots + 1
    && offsets[0] == 0 && offsets[slots] == len
    && forall i, j :: 0 <= i <= j <= slots ==> offsets[i] <= offsets[j]
  }

  function Len(a: Arr): nat {
    |a.valid|
  }

  predicate Valid(a: Arr) {
    match a
    case PrimArr(leaf, prims, valid) => |prims| == |valid| && !leaf.List?
    case ListArr(elem, nullable, offsets, values, valid) =>
      && Valid(values) && TypeOf(values) == elem && GoodOffsets(offsets, |valid|, Len(values))
  }

  /** The slots of an array, read through offsets and mask. */
  ghost function Rows(a: Arr): (r: seq<Value>)
    requires Valid(a)
    ensures |r| == Len(a)
  {
    match a
    case PrimArr(_, prims, valid) =>
      seq(|valid|, i requires 0 <= i < |valid| => if valid[i] then Int(prims[i]) else Null)
    case ListArr(_, _, offsets, values, valid) =>
      var inner := Rows(values);
      seq(|valid|, i requires 0 <= i < |valid| =>
        if valid[i] then Items(inner[offsets[i]..offsets[i + 1]]) else Null)
  }

  // ----- what a literal means

  /** One flag a value, at every depth. */
  predicate Shaped(lit: Literal, t: Ty)
    decreases t
  {
    if t.List? then
      && |lit.nullMask| == |lit.lists|
      && forall i :: 0 <= i < |lit.lists| ==> Shaped(lit.lists[i], t.elem)
    else |lit.nullMask| == |lit.prims|
  }

  /** A literal of lists whose elements are of type `u`. */
  predicate ShapedOver(lit: Literal, u: Ty) {
    |lit.nullMask| == |lit.lists| && forall i :: 0 <= i < |lit.lists| ==> Shaped(lit.lists[i], u)
  }

  /** The slots that a literal with elements of type `t` spells out. */
  ghost function Meaning(lit: Literal, t: Ty): (r: seq<Value>)
    requires Shaped(lit, t)
    ensures |r| == |lit.nullMask|
    decreases t
  {
    if t.List? then
      seq(|lit.lists|, i requires 0 <= i < |lit.lists| =>
        if lit.nullMask[i] then Items(Meaning(lit.lists[i], t.elem)) else Null)
    else
      seq(|lit.prims|, i requires 0 <= i < |lit.prims| => if lit.nullMask[i] then Int(lit.prims[i]) else Null)
  }

  /** Slot `i` contributes child values: it is valid and not the empty literal. */
  predicate Live(lit: Literal, i: nat)
    requires i < |lit.lists| && |lit.nullMask| == |lit.lists|
  {
    lit.nullMask[i] && lit.lists[i] != DEFAULT
  }

  /** The child values of the first `n` slots. */
  ghost function ChildRows(lit: Literal, u: Ty, n: nat): seq<Value>
    requires ShapedOver(lit, u) && n <= |lit.lists|
  {
    if n == 0 then []
    else ChildRows(lit, u, n - 1) + if Live(lit, n - 1) then Meaning(lit.lists[n - 1], u) else []
  }

  // ----- the types that come out

  function Levels(t: Ty): nat {
    if t.List? then Levels(t.elem) + 1 else 0
  }

  /**
    The element type of the array, or an error. Arrays built here have nullable elements; an empty
    one keeps its declared type; arrays of different types are not concatenated.
   */
  ghost function Encoded(lit: Literal, t: Ty): (r: Result<Ty, Error>)
    requires Shaped(lit, t)
    decreases Levels(t), |lit.lists| + 1
  {
    match t
    case Prim => Ok(Prim)
    case Unsupported => Err(NotSupported)
    case List(u, _) =>
      match Children(lit, u, |lit.lists|)
      case Err(e) => Err(e)
      case Ok(ts) =>
        if ts == [] then Ok(List(t, true))
        else if forall k :: 0 <= k < |ts| ==> ts[k] == ts[0] then Ok(List(ts[0], true))
        else Err(MixedTypes)
  }

  /** The types of the live children among the first `n`, in order, or the first error. */
  ghost function Children(lit: Literal, u: Ty, n: nat): (r: Result<seq<Ty>, Error>)
    requires ShapedOver(lit, u) && n <= |lit.lists|
    decreases Levels(u) + 1, n
  {
    if n == 0 then Ok([])
    else
      match Children(lit, u, n - 1)
      case Err(e) => Err(e)
      case Ok(ts) =>
        if !Live(lit, n - 1) then Ok(ts)
        else match Encoded(lit.lists[n - 1], u)
          case Err(e) => Err(e)
          case Ok(t) => Ok(ts + [t])
  }

  // ----- concatenation

  function Shift(offsets: seq<nat>, base: nat): (r: seq<nat>)
    ensures |r| == |offsets|
  {
    seq(|offsets|, i requires 0 <= i < |offsets| => offsets[i] + base)
  }

  /** One array behind another of the same type. */
  function Append(a: Arr, b: Arr): Arr
    requires Valid(a) && Valid(b) && TypeOf(a) == TypeOf(b)
    decreases a
  {
    match a
    case PrimArr(leaf, prims, valid) => PrimArr(leaf, prims + b.prims, valid + b.valid)
    case ListArr(elem, nullable, offsets, values, valid) =>
      var joined := offsets + Shift(b.offsets, Len(values))[1..];
      ListArr(elem, nullable, joined, Append(values, b.values), valid + b.valid)
  }

  lemma {:induction false} AppendRows(a: Arr, b: Arr)
    requires Valid(a) && Valid(b) && TypeOf(a) == TypeOf(b)
    ensures Valid(Append(a, b)) && TypeOf(Append(a, b)) == TypeOf(a)
    ensures Rows(Append(a, b)) == Rows(a) + Rows(b)
    decreases a
  {
    if a.ListArr? {
      AppendRows(a.values, b.values);
      AppendedValid(a, b);
      hide Append, Rows, Valid;
      var c := Append(a, b);
      forall i | 0 <= i < Len(c)
        ensures Rows(c)[i] == (Rows(a) + Rows(b))[i]
      {
        AppendedRow(a, b, i);
      }
    }
  }

  lemma AppendedValid(a: Arr, b: Arr)
    requires a.ListArr? && b.ListArr? && Valid(a) && Valid(b) && TypeOf(a) == TypeOf(b)
    requires Valid(Append(a.values, b.values)) && TypeOf(Append(a.values, b.values)) == TypeOf(a.values)
    requires |Rows(Append(a.values, b.values))| == |Rows(a.values)| + |Rows(b.values)|
    ensures Valid(Append(a, b)) && TypeOf(Append(a, b)) == TypeOf(a) && Len(Append(a, b)) == Len(a) + Len(b)
  {
    AppendedParts(a, b);
    hide Append, Rows, GoodOffsets, Shift;
    AppendOffsets(a.offsets, |a.valid|, Len(a.values), b.offsets, |b.valid|, Len(b.values));
  }

  lemma AppendOffsets(x: seq<nat>, m: nat, p: nat, y: seq<nat>, n: nat, q: nat)
    requires GoodOffsets(x, m, p) && GoodOffsets(y, n, q)
    ensures GoodOffsets(x + Shift(y, p)[1..], m + n, p + q)
    ensures forall i :: 0 <= i <= m ==> (x + Shift(y, p)[1..])[i] == x[i]
    ensures forall i :: 0 <= i <= n ==> (x + Shift(y, p)[1..])[m + i] == y[i] + p
  {
    var z := x + Shift(y, p)[1..];
    forall i | 0 <= i <= n
      ensures z[m + i] == y[i] + p
    {
      if i > 0 {
        assert z[m + i] == Shift(y, p)[1..][i - 1];
      }
    }
    forall i, j | 0 <= i <= j <= m + n
      ensures z[i] <= z[j]
    {
      if i >= m {
        assert z[m + (i - m)] == y[i - m] + p && z[m + (j - m)] == y[j - m] + p;
      } else if j > m {
        assert z[m + (j - m)] == y[j - m] + p;
        assert x[i] <= x[m];
      }
    }
    assert z[m + n] == y[n] + p;
  }

  lemma AppendedParts(a: Arr, b: Arr)
    requires a.ListArr? && b.ListArr? && Valid(a) && Valid(b) && TypeOf(a) == TypeOf(b)
    ensures var joined := a.offsets + Shift(b.offsets, Len(a.values))[1..];
            Append(a, b) == ListArr(a.elem, a.nullable, joined, Append(a.values, b.values), a.valid + b.valid)
    ensures GoodOffsets(a.offsets, |a.valid|, Len(a.values)) && GoodOffsets(b.offsets, |b.valid|, Len(b.values))
  {
  }

  lemma AppendedRow(a: Arr, b: Arr, i: nat)
    requires a.ListArr? && b.ListArr? && Valid(a) && Valid(b) && TypeOf(a) == TypeOf(b)
    requires Valid(Append(a, b)) && Valid(Append(a.values, b.values))
    requires Rows(Append(a.values, b.values)) == Rows(a.values) + Rows(b.values)
    requires i < Len(a) + Len(b)
    ensures Len(Append(a, b)) == Len(a) + Len(b)
    ensures Rows(Append(a, b))[i] == (Rows(a) + Rows(b))[i]
  {
    AppendedParts(a, b);
    hide Append, Rows, GoodOffsets, Shift, Valid, TypeOf;
    var c := Append(a, b);
    var m, p := |a.valid|, Len(a.values);
    AppendOffsets(a.offsets, m, p, b.offsets, |b.valid|, Len(b.values));
    var x, y := Rows(a.values), Rows(b.values);
    RowAt(c, i);
    if i < m {
      RowAt(a, i);
      assert c.offsets[i + 1] == a.offsets[i + 1];
      SliceLeft(x, y, a.offsets[i], a.offsets[i + 1]);
    } else {
      var k := i - m;
      RowAt(b, k);
      assert c.offsets[m + k] == b.offsets[k] + p && c.offsets[m + (k + 1)] == b.offsets[k + 1] + p;
      SliceRight(x, y, b.offsets[k], b.offsets[k + 1]);
    }
  }

  lemma RowAt(a: Arr, i: nat)
    requires a.ListArr? && Valid(a) && i < Len(a)
    ensures |a.offsets| == |a.valid| + 1 && a.offsets[i] <= a.offsets[i + 1] <= |Rows(a.values)|
    ensures Rows(a)[i] == if a.valid[i] then Items(Rows(a.values)[a.offsets[i]..a.offsets[i + 1]]) else Null
  {
  }

  lemma SliceLeft<T>(x: seq<T>, y: seq<T>, i: nat, j: nat)
    requires i <= j <= |x|
    ensures (x + y)[i..j] == x[i..j]
  {
  }

  lemma SliceRight<T>(x: seq<T>, y: seq<T>, i: nat, j: nat)
    requires i <= j <= |y|
    ensures (x + y)[i + |x|..j + |x|] == y[i..j]
  {
  }

  /** `arrow::compute::concat` on a non-empty list: an error when the types differ. */
  function Concat(arrs: seq<Arr>): (r: Result<Arr, Error>)
    requires arrs != [] && forall k :: 0 <= k < |arrs| ==> Valid(arrs[k])
  {
    if forall k :: 0 <= k < |arrs| ==> TypeOf(arrs[k]) == TypeOf(arrs[0]) then Ok(Joined(arrs)) else Err(MixedTypes)
  }

  function Joined(arrs: seq<Arr>): (r: Arr)
    requires arrs != [] && forall k :: 0 <= k < |arrs| ==> Valid(arrs[k]) && TypeOf(arrs[k]) == TypeOf(arrs[0])
    ensures Valid(r) && TypeOf(r) == TypeOf(arrs[0])
  {
    if |arrs| == 1 then arrs[0]
    else
      AppendRows(Joined(arrs[..|arrs| - 1]), arrs[|arrs| - 1]);
      Append(Joined(arrs[..|arrs| - 1]), arrs[|arrs| - 1])
  }

  ghost function AllRows(arrs: seq<Arr>): seq<Value>
    requires forall k :: 0 <= k < |arrs| ==> Valid(arrs[k])
  {
    if arrs == [] then [] else AllRows(arrs[..|arrs| - 1]) + Rows(arrs[|arrs| - 1])
  }

  lemma {:induction false} JoinedRows(arrs: seq<Arr>)
    requires arrs != [] && forall k :: 0 <= k < |arrs| ==> Valid(arrs[k]) && TypeOf(arrs[k]) == TypeOf(arrs[0])
    ensures Rows(Joined(arrs)) == AllRows(arrs)
  {
    hide Rows, Append, Valid;
    if |arrs| > 1 {
      JoinedRows(arrs[..|arrs| - 1]);
      AppendRows(Joined(arrs[..|arrs| - 1]), arrs[|arrs| - 1]);
    } else {
      assert AllRows(arrs[..0]) == [];
    }
  }

  // ----- the layout, depth by depth

  /** What an array stores at one depth: flags, the sizes of its lists, or its primitive values. */
  datatype Layer = Layer(flags: seq<bool>, sizes: seq<nat>, cells: seq<int>)

  const NO_LAYER := Layer([], [], [])

  function Both(a: Layer, b: Layer): Layer {
    Layer(a.flags + b.flags, a.sizes + b.sizes, a.cells + b.cells)
  }

  predicate Rising(offsets: seq<nat>) {
    forall i :: 0 <= i < |offsets| - 1 ==> offsets[i] <= offsets[i + 1]
  }

  function SizesBetween(offsets: seq<nat>): (r: seq<nat>)
    requires offsets != [] && Rising(offsets)
    ensures |r| == |offsets| - 1 && forall i :: 0 <= i < |r| ==> r[i] == offsets[i + 1] - offsets[i]
  {
    seq(|offsets| - 1, i requires 0 <= i < |offsets| - 1 => offsets[i + 1] - offsets[i])
  }

  function LayerAt(a: Arr, d: nat): Layer
    requires Valid(a)
  {
    match a
    case PrimArr(_, prims, valid) => if d == 0 then Layer(valid, [], prims) else NO_LAYER
    case ListArr(_, _, offsets, values, valid) =>
      if d == 0 then Layer(valid, SizesBetween(offsets), []) else LayerAt(values, d - 1)
  }

  /** What a literal holds at one depth below its live children, in order. */
  ghost function LayerOf(lit: Literal, t: Ty, d: nat): Layer
    requires Shaped(lit, t)
    decreases Levels(t), |lit.lists| + 1
  {
    if !t.List? then if d == 0 then Layer(lit.nullMask, [], lit.prims) else NO_LAYER
    else if d == 0 then Layer(lit.nullMask, ListSizes(lit), [])
    else LayersOf(lit, t.elem, |lit.lists|, d - 1)
  }

  ghost function LayersOf(lit: Literal, u: Ty, n: nat, d: nat): Layer
    requires ShapedOver(lit, u) && n <= |lit.lists|
    decreases Levels(u) + 1, n
  {
    if n == 0 then NO_LAYER
    else if Live(lit, n - 1) then Both(LayersOf(lit, u, n - 1, d), LayerOf(lit.lists[n - 1], u, d))
    else LayersOf(lit, u, n - 1, d)
  }

  /** The length of every list of a literal, none where it is null. */
  function ListSizes(lit: Literal): (r: seq<nat>)
    requires |lit.nullMask| == |lit.lists|
    ensures |r| == |lit.lists|
  {
    seq(|lit.lists|, i requires 0 <= i < |lit.lists| => if lit.nullMask[i] then |lit.lists[i].nullMask| else 0)
  }

  ghost function AllLayers(arrs: seq<Arr>, d: nat): Layer
    requires forall k :: 0 <= k < |arrs| ==> Valid(arrs[k])
  {
    if arrs == [] then NO_LAYER else Both(AllLayers(arrs[..|arrs| - 1], d), LayerAt(arrs[|arrs| - 1], d))
  }

  lemma NoLayerAdds(a: Layer)
    ensures Both(NO_LAYER, a) == a
  {
    assert [] + a.flags == a.flags && [] + a.sizes == a.sizes && [] + a.cells == a.cells;
  }

  lemma {:induction false} AppendLayers(a: Arr, b: Arr, d: nat)
    requires Valid(a) && Valid(b) && TypeOf(a) == TypeOf(b)
    ensures Valid(Append(a, b)) && LayerAt(Append(a, b), d) == Both(LayerAt(a, d), LayerAt(b, d))
    decreases a
  {
    AppendRows(a, b);
    if a.ListArr? {
      AppendedParts(a, b);
      if d == 0 {
        AppendedSizes(a.offsets, |a.valid|, Len(a.values), b.offsets, |b.valid|, Len(b.values));
      } else {
        AppendLayers(a.values, b.values, d - 1);
      }
    }
  }

  lemma AppendedSizes(x: seq<nat>, m: nat, p: nat, y: seq<nat>, n: nat, q: nat)
    requires GoodOffsets(x, m, p) && GoodOffsets(y, n, q)
    ensures var z := x + Shift(y, p)[1..];
            GoodOffsets(z, m + n, p + q) && SizesBetween(z) == SizesBetween(x) + SizesBetween(y)
  {
    AppendOffsets(x, m, p, y, n, q);
    hide Shift;
    SizesConcat(x, m, y, n, x + Shift(y, p)[1..], p);
  }

  lemma SizesConcat(x: seq<nat>, m: nat, y: seq<nat>, n: nat, z: seq<nat>, p: nat)
    requires |x| == m + 1 && |y| == n + 1 && |z| == m + n + 1
    requires Rising(x) && Rising(y) && Rising(z)
    requires forall i :: 0 <= i <= m ==> z[i] == x[i]
    requires forall i :: 0 <= i <= n ==> z[m + i] == y[i] + p
    ensures SizesBetween(z) == SizesBetween(x) + SizesBetween(y)
  {
    hide Rising;
    forall i | 0 <= i < m + n
      ensures SizesBetween(z)[i] == (SizesBetween(x) + SizesBetween(y))[i]
    {
      if i >= m {
        assert z[m + (i - m)] == y[i - m] + p && z[m + (i - m + 1)] == y[i - m + 1] + p;
      }
    }
  }

  lemma {:induction false} JoinedLayers(arrs: seq<Arr>, d: nat)
    requires arrs != [] && forall k :: 0 <= k < |arrs| ==> Valid(arrs[k]) && TypeOf(arrs[k]) == TypeOf(arrs[0])
    ensures LayerAt(Joined(arrs), d) == AllLayers(arrs, d)
  {
    hide LayerAt, Append, Valid;
    if |arrs| > 1 {
      JoinedLayers(arrs[..|arrs| - 1], d);
      AppendLayers(Joined(arrs[..|arrs| - 1]), arrs[|arrs| - 1], d);
    } else {
      assert AllLayers(arrs[..0], d) == NO_LAYER;
      NoLayerAdds(LayerAt(arrs[0], d));
    }
  }

  lemma {:induction false} EmptyLayers(t: Ty, d: nat)
    ensures LayerAt(Empty(t), d) == NO_LAYER
    decreases t
  {
    if t.List? && d > 0 {
      EmptyLayers(t.elem, d - 1);
    }
  }

  // ----- the encoder

  /** `new_empty_array`: an array of the given type without slots. */
  function Empty(t: Ty): (a: Arr)
    ensures Valid(a) && Rows(a) == [] && TypeOf(a) == t
  {
    match t
    case List(u, nullable) => ListArr(u, nullable, [0], Empty(u), [])
    case _ => PrimArr(t, [], [])
  }

  /** The live children encoded so far, with the offsets of the first `n` slots. */
  ghost predicate Built(lit: Literal, u: Ty, n: nat, offsets: seq<nat>, arrs: seq<Arr>)
    requires ShapedOver(lit, u) && n <= |lit.lists|
  {
    && (forall k :: 0 <= k < |arrs| ==> Valid(arrs[k]))
    && AllRows(arrs) == ChildRows(lit, u, n)
    && Children(lit, u, n) == Ok(Types(arrs))
    && |offsets| == n + 1
    && forall i :: 0 <= i <= n ==> offsets[i] == |ChildRows(lit, u, i)|
  }

  /** The children encoded so far store, at every depth, what the live ones of the first `n` slots hold. */
  ghost predicate Layered(lit: Literal, u: Ty, n: nat, arrs: seq<Arr>)
    requires ShapedOver(lit, u) && n <= |lit.lists|
    requires forall k :: 0 <= k < |arrs| ==> Valid(arrs[k])
  {
    forall d: nat :: AllLayers(arrs, d) == LayersOf(lit, u, n, d)
  }

  lemma LayeredStart(lit: Literal, u: Ty)
    requires ShapedOver(lit, u)
    ensures Layered(lit, u, 0, [])
  {
  }

  lemma LayeredLive(lit: Literal, u: Ty, n: nat, arrs: seq<Arr>, a: Arr)
    requires ShapedOver(lit, u) && n < |lit.lists| && Live(lit, n)
    requires Valid(a) && forall k :: 0 <= k < |arrs| ==> Valid(arrs[k])
    requires Layered(lit, u, n, arrs) && forall d: nat :: LayerAt(a, d) == LayerOf(lit.lists[n], u, d)
    ensures Layered(lit, u, n + 1, arrs + [a])
  {
    hide LayerAt, LayerOf, Valid, Both;
    assert (arrs + [a])[..|arrs|] == arrs;
    forall d: nat
      ensures AllLayers(arrs + [a], d) == LayersOf(lit, u, n + 1, d)
    {
      assert AllLayers(arrs, d) == LayersOf(lit, u, n, d);
    }
  }

  lemma LayeredSkip(lit: Literal, u: Ty, n: nat, arrs: seq<Arr>)
    requires ShapedOver(lit, u) && n < |lit.lists| && !Live(lit, n)
    requires forall k :: 0 <= k < |arrs| ==> Valid(arrs[k])
    requires Layered(lit, u, n, arrs)
    ensures Layered(lit, u, n + 1, arrs)
  {
    hide LayerAt, LayerOf, Valid, Both, AllLayers;
  }

  /** The offsets tell the sizes of the lists. */
  lemma FinishedSizes(lit: Literal, u: Ty, offsets: seq<nat>, arrs: seq<Arr>)
    requires ShapedOver(lit, u) && Built(lit, u, |lit.lists|, offsets, arrs)
    ensures |offsets| == |lit.lists| + 1 && Rising(offsets) && SizesBetween(offsets) == ListSizes(lit)
  {
    hide Rows, Valid, Encoded, Meaning, AllRows, ChildRows, SizesBetween, ListSizes;
    forall i | 0 <= i < |lit.lists|
      ensures offsets[i] <= offsets[i + 1] && offsets[i + 1] - offsets[i] == ListSizes(lit)[i]
    {
      assert offsets[i] == |ChildRows(lit, u, i)| && offsets[i + 1] == |ChildRows(lit, u, i + 1)|;
      ChildSize(lit, u, i);
    }
    SizesAre(offsets, ListSizes(lit));
  }

  lemma SizesAre(offsets: seq<nat>, sizes: seq<nat>)
    requires |offsets| == |sizes| + 1
    requires forall i :: 0 <= i < |sizes| ==> offsets[i] <= offsets[i + 1] && offsets[i + 1] - offsets[i] == sizes[i]
    ensures Rising(offsets) && SizesBetween(offsets) == sizes
  {
  }

  lemma ChildSize(lit: Literal, u: Ty, i: nat)
    requires ShapedOver(lit, u) && i < |lit.lists|
    ensures |ChildRows(lit, u, i + 1)| == |ChildRows(lit, u, i)| + ListSizes(lit)[i]
  {
    hide Meaning;
  }

  lemma FinishedLayers(lit: Literal, t: Ty, offsets: seq<nat>, arrs: seq<Arr>, values: Arr)
    requires t.List? && Shaped(lit, t) && Built(lit, t.elem, |lit.lists|, offsets, arrs)
    requires Valid(values)
    requires forall d: nat :: LayerAt(values, d) == LayersOf(lit, t.elem, |lit.lists|, d)
    requires Valid(ListArr(TypeOf(values), true, offsets, values, lit.nullMask))
    ensures forall d: nat ::
              LayerAt(ListArr(TypeOf(values), true, offsets, values, lit.nullMask), d) == LayerOf(lit, t, d)
  {
    FinishedSizes(lit, t.elem, offsets, arrs);
    hide Built, SizesBetween, ListSizes;
    var a := ListArr(TypeOf(values), true, offsets, values, lit.nullMask);
    forall d: nat
      ensures LayerAt(a, d) == LayerOf(lit, t, d)
    {
      if d > 0 {
        assert LayerAt(a, d) == LayerAt(values, d - 1);
      }
    }
  }

  function Types(arrs: seq<Arr>): (ts: seq<Ty>)
    ensures |ts| == |arrs| && forall k :: 0 <= k < |arrs| ==> ts[k] == TypeOf(arrs[k])
  {
    seq(|arrs|, k requires 0 <= k < |arrs| => TypeOf(arrs[k]))
  }

  lemma BuiltStart(lit: Literal, u: Ty)
    requires ShapedOver(lit, u)
    ensures Built(lit, u, 0, [0], [])
  {
    assert Types([]) == [];
  }

  lemma BuiltLive(lit: Literal, u: Ty, n: nat, offsets: seq<nat>, arrs: seq<Arr>, a: Arr)
    requires ShapedOver(lit, u) && n < |lit.lists| && Built(lit, u, n, offsets, arrs) && Live(lit, n)
    requires Valid(a) && Rows(a) == Meaning(lit.lists[n], u) && Encoded(lit.lists[n], u) == Ok(TypeOf(a))
    ensures Built(lit, u, n + 1, offsets + [offsets[n] + Len(a)], arrs + [a])
  {
    hide Rows, Valid, Encoded, Meaning;
    var arrs' := arrs + [a];
    assert arrs'[..|arrs|] == arrs;
    assert Types(arrs') == Types(arrs) + [TypeOf(a)];
  }

  lemma BuiltSkip(lit: Literal, u: Ty, n: nat, offsets: seq<nat>, arrs: seq<Arr>)
    requires ShapedOver(lit, u) && n < |lit.lists| && Built(lit, u, n, offsets, arrs) && !Live(lit, n)
    ensures Built(lit, u, n + 1, offsets + [offsets[n]], arrs)
  {
    hide Rows, Valid, Encoded, Meaning;
    assert ChildRows(lit, u, n) + [] == ChildRows(lit, u, n);
  }

  /** An error in a child is the error of the whole. */
  lemma {:induction false} ChildrenStop(lit: Literal, u: Ty, n: nat, m: nat)
    requires ShapedOver(lit, u) && n <= m <= |lit.lists| && Children(lit, u, n).Err?
    ensures Children(lit, u, m) == Children(lit, u, n)
    decreases m
  {
    hide Encoded;
    if n < m {
      ChildrenStop(lit, u, n, m - 1);
    }
  }

  lemma {:induction false} ChildRowsGrow(lit: Literal, u: Ty, i: nat, j: nat)
    requires ShapedOver(lit, u) && i <= j <= |lit.lists|
    ensures ChildRows(lit, u, i) <= ChildRows(lit, u, j)
    decreases j
  {
    hide Meaning;
    if i < j {
      ChildRowsGrow(lit, u, i, j - 1);
    }
  }

  /** Reading slot `i` through the offsets finds exactly the values of child `i`. */
  lemma SlotRows(lit: Literal, u: Ty, i: nat)
    requires ShapedOver(lit, u) && i < |lit.lists| && lit.nullMask[i]
    ensures var all, from, to := ChildRows(lit, u, |lit.lists|), |ChildRows(lit, u, i)|, |ChildRows(lit, u, i + 1)|;
            from <= to <= |all| && all[from..to] == Meaning(lit.lists[i], u)
  {
    var all, a, b := ChildRows(lit, u, |lit.lists|), ChildRows(lit, u, i), ChildRows(lit, u, i + 1);
    ChildRowsGrow(lit, u, i + 1, |lit.lists|);
    assert b == a + Meaning(lit.lists[i], u) by {
      if !Live(lit, i) {
        assert Meaning(DEFAULT, u) == [];
      }
    }
    assert all[..|b|] == b;
    assert all[|a|..|b|] == all[..|b|][|a|..];
  }

  lemma OffsetsGood(lit: Literal, u: Ty, offsets: seq<nat>, arrs: seq<Arr>)
    requires ShapedOver(lit, u) && Built(lit, u, |lit.lists|, offsets, arrs)
    ensures GoodOffsets(offsets, |lit.lists|, |ChildRows(lit, u, |lit.lists|)|)
  {
    hide Rows, Valid, Encoded, Meaning;
    forall i, j | 0 <= i <= j <= |lit.lists|
      ensures offsets[i] <= offsets[j]
    {
      ChildRowsGrow(lit, u, i, j);
    }
  }

  /** The finished list array reads back as the literal. */
  lemma FinishedRows(lit: Literal, t: Ty, offsets: seq<nat>, arrs: seq<Arr>, values: Arr)
    requires t.List? && Shaped(lit, t) && Built(lit, t.elem, |lit.lists|, offsets, arrs)
    requires Valid(values) && Rows(values) == ChildRows(lit, t.elem, |lit.lists|)
    ensures var a := ListArr(TypeOf(values), true, offsets, values, lit.nullMask);
            Valid(a) && Rows(a) == Meaning(lit, t)
  {
    hide Encoded, Children, AllRows, GoodOffsets;
    OffsetsGood(lit, t.elem, offsets, arrs);
    var a := ListArr(TypeOf(values), true, offsets, values, lit.nullMask);
    assert Valid(a);
    forall i | 0 <= i < |lit.lists|
      ensures Rows(a)[i] == Meaning(lit, t)[i]
    {
      RowAt(a, i);
      if lit.nullMask[i] {
        SlotRows(lit, t.elem, i);
      }
    }
  }

  /**
    Encodes a literal of data type `t`. It succeeds exactly when the literal is uniform; the
    array is then well formed and reads back as the literal at every depth, and its element type
    is the declared one with nullable elements when every level holds a live entry, else the
    declared type kept at the empty level, one list level too deep.
   */
  method ToArray(t: Ty, lit: Literal) returns (r: Result<Arr, Error>)
    requires Shaped(lit, Elem(t))
    ensures r.Ok? <==> Uniform(lit, Elem(t))
    ensures r.Ok? ==>
              && Valid(r.value) && Rows(r.value) == Meaning(lit, Elem(t))
              && TypeOf(r.value) == BuiltType(lit, Elem(t))
              && forall d: nat :: LayerAt(r.value, d) == LayerOf(lit, Elem(t), d)
    ensures r.Ok? ==>
              if Elem(t).List? then
                && r.value.ListArr? && r.value.valid == lit.nullMask
                && forall i :: 0 <= i < |lit.lists| ==>
                     r.value.offsets[i + 1] - r.value.offsets[i]
                     == if lit.nullMask[i] then |lit.lists[i].nullMask| else 0
              else r.value == PrimArr(Elem(t), lit.prims, lit.nullMask)
    ensures r.Err? ==> r.error == NotSupported || r.error == MixedTypes
    ensures r == Err(NotSupported) ==> Leaf(t) == Unsupported
    ensures Elem(t) == Unsupported ==> r == Err(NotSupported)
  {
    hide Encoded, Inhabited, LayerOf, Meaning, Rows;
    r := Encode(t, lit);
    EncodesExactlyWhen(lit, Elem(t));
    if r.Ok? {
      TopLayer(lit, Elem(t), r.value);
    } else {
      ErrorSays(lit, Elem(t), r.error);
      LeafOfElem(t);
    }
  }

  /** The flags, sizes and values at the top, spelled out. */
  lemma TopLayer(lit: Literal, u: Ty, a: Arr)
    requires Shaped(lit, u) && Valid(a) && LayerAt(a, 0) == LayerOf(lit, u, 0)
    requires TypeOf(a) == BuiltType(lit, u) && Uniform(lit, u)
    ensures if u.List? then
              && a.ListArr? && a.valid == lit.nullMask
              && forall i :: 0 <= i < |lit.lists| ==>
                   a.offsets[i + 1] - a.offsets[i] == if lit.nullMask[i] then |lit.lists[i].nullMask| else 0
            else a == PrimArr(u, lit.prims, lit.nullMask)
  {
    if u.List? {
      forall i | 0 <= i < |lit.lists|
        ensures a.offsets[i + 1] - a.offsets[i] == ListSizes(lit)[i]
      {
        assert SizesBetween(a.offsets)[i] == a.offsets[i + 1] - a.offsets[i];
      }
    }
  }

  function Leaf(t: Ty): Ty {
    if t.List? then Leaf(t.elem) else t
  }

  lemma LeafOfElem(t: Ty)
    ensures Leaf(Elem(t)) == Leaf(t)
  {
  }

  lemma {:induction false} ErrorSays(lit: Literal, u: Ty, error: Error)
    requires Shaped(lit, u) && Encoded(lit, u) == Err(error)
    ensures error == NotSupported ==> Leaf(u) == Unsupported
    ensures u == Unsupported ==> error == NotSupported
    decreases Levels(u), 0
  {
    if u.List? && Children(lit, u.elem, |lit.lists|).Err? {
      ChildErrorSays(lit, u.elem, |lit.lists|, error);
    }
  }

  lemma {:induction false} ChildErrorSays(lit: Literal, u: Ty, n: nat, error: Error)
    requires ShapedOver(lit, u) && n <= |lit.lists| && Children(lit, u, n) == Err(error)
    ensures error == NotSupported ==> Leaf(u) == Unsupported
    decreases Levels(u), n + 1
  {
    if n > 0 {
      if Children(lit, u, n - 1).Err? {
        ChildErrorSays(lit, u, n - 1, error);
      } else {
        ErrorSays(lit.lists[n - 1], u, error);
      }
    }
  }

  /** The recursion of `ToArray`, against the level-by-level account of the types. */
  method Encode(t: Ty, lit: Literal) returns (r: Result<Arr, Error>)
    requires Shaped(lit, Elem(t))
    ensures r.Err? ==> Encoded(lit, Elem(t)) == Err(r.error)
    ensures r.Ok? ==>
              && Valid(r.value) && Rows(r.value) == Meaning(lit, Elem(t))
              && Encoded(lit, Elem(t)) == Ok(TypeOf(r.value))
              && forall d: nat :: LayerAt(r.value, d) == LayerOf(lit, Elem(t), d)
    decreases t
  {
    if t.Unsupported? {
      return Err(NotSupported);
    }
    if t.Prim? {
      return Ok(PrimArr(Prim, lit.prims, lit.nullMask));
    }
    if !t.elem.List? {
      r := Encode(t.elem, lit);
      return;
    }
    ghost var u := t.elem.elem;
    var offsets: seq<nat> := [0];
    var childArrays: seq<Arr> := [];
    BuiltStart(lit, u);
    LayeredStart(lit, u);
    for i := 0 to |lit.lists|
      invariant Built(lit, u, i, offsets, childArrays)
      invariant Layered(lit, u, i, childArrays)
    {
      hide Built, Layered, Rows, Meaning, Encoded, Valid, LayerAt, LayerOf;
      if lit.nullMask[i] && lit.lists[i] != DEFAULT {
        var child := Encode(t.elem, lit.lists[i]);
        if child.Err? {
          ChildFails(lit, t.elem, i, offsets, childArrays, child.error);
          return child;
        }
        BuiltLive(lit, u, i, offsets, childArrays, child.value);
        BuiltShape(lit, u, i, offsets, childArrays);
        LayeredLive(lit, u, i, childArrays, child.value);
        childArrays := childArrays + [child.value];
        offsets := offsets + [offsets[|offsets| - 1] + Len(child.value)];
      } else {
        BuiltSkip(lit, u, i, offsets, childArrays);
        BuiltShape(lit, u, i, offsets, childArrays);
        LayeredSkip(lit, u, i, childArrays);
        offsets := offsets + [offsets[|offsets| - 1]];
      }
    }
    r := Finish(t.elem, lit, offsets, childArrays);
  }

  /** Concatenates the children, or makes an empty array of the declared type when there are none. */
  method Finish(t: Ty, lit: Literal, offsets: seq<nat>, childArrays: seq<Arr>) returns (r: Result<Arr, Error>)
    requires t.List? && Shaped(lit, t) && Built(lit, t.elem, |lit.lists|, offsets, childArrays)
    requires Layered(lit, t.elem, |lit.lists|, childArrays)
    ensures r.Err? ==> Encoded(lit, t) == Err(r.error)
    ensures r.Ok? ==> Valid(r.value) && Rows(r.value) == Meaning(lit, t) && Encoded(lit, t) == Ok(TypeOf(r.value))
    ensures r.Ok? ==> forall d: nat :: LayerAt(r.value, d) == LayerOf(lit, t, d)
  {
    hide Built, Rows, Meaning, LayerAt, LayerOf;
    BuiltShape(lit, t.elem, |lit.lists|, offsets, childArrays);
    var output := Empty(t);
    if childArrays != [] {
      var joined := Concat(childArrays);
      if joined.Err? {
        return joined;
      }
      output := joined.value;
      JoinedRows(childArrays);
    } else {
      assert AllRows(childArrays) == [];
    }
    FinishedRows(lit, t, offsets, childArrays, output);
    OutputLayers(lit, t, childArrays, output);
    FinishedLayers(lit, t, offsets, childArrays, output);
    r := Ok(ListArr(TypeOf(output), true, offsets, output, lit.nullMask));
  }

  lemma OutputLayers(lit: Literal, t: Ty, arrs: seq<Arr>, output: Arr)
    requires t.List? && Shaped(lit, t) && forall k :: 0 <= k < |arrs| ==> Valid(arrs[k])
    requires Layered(lit, t.elem, |lit.lists|, arrs)
    requires if arrs == [] then output == Empty(t) else Concat(arrs) == Ok(output)
    ensures Valid(output) && forall d: nat :: LayerAt(output, d) == LayersOf(lit, t.elem, |lit.lists|, d)
  {
    hide LayerAt, LayersOf, Joined, Empty, Valid;
    forall d: nat
      ensures LayerAt(output, d) == LayersOf(lit, t.elem, |lit.lists|, d)
    {
      if arrs == [] {
        EmptyLayers(t, d);
      } else {
        JoinedLayers(arrs, d);
      }
    }
  }

  lemma BuiltShape(lit: Literal, u: Ty, n: nat, offsets: seq<nat>, arrs: seq<Arr>)
    requires ShapedOver(lit, u) && n <= |lit.lists| && Built(lit, u, n, offsets, arrs)
    ensures |offsets| == n + 1 && forall k :: 0 <= k < |arrs| ==> Valid(arrs[k])
    ensures AllRows(arrs) == ChildRows(lit, u, n) && Children(lit, u, n) == Ok(Types(arrs))
  {
  }

  lemma ChildFails(lit: Literal, t: Ty, n: nat, offsets: seq<nat>, arrs: seq<Arr>, error: Error)
    requires t.List? && Shaped(lit, t) && n < |lit.lists| && Built(lit, t.elem, n, offsets, arrs)
    requires Live(lit, n) && Encoded(lit.lists[n], t.elem) == Err(error)
    ensures Encoded(lit, t) == Err(error)
  {
    ChildrenStop(lit, t.elem, n + 1, |lit.lists|);
  }

  // ----- when the encoding succeeds, and with what type

  /** Every level down to the leaves holds at least one live entry. */
  predicate Inhabited(lit: Literal, t: Ty)
    requires Shaped(lit, t)
    decreases t
  {
    match t
    case Prim => true
    case Unsupported => false
    case List(u, _) =>
      && (exists i :: 0 <= i < |lit.lists| && Live(lit, i))
      && forall i :: 0 <= i < |lit.lists| && Live(lit, i) ==> Inhabited(lit.lists[i], u)
  }

  /** The first live slot from `n` on. */
  function FirstLive(lit: Literal, n: nat): (r: Option<nat>)
    requires |lit.nullMask| == |lit.lists| && n <= |lit.lists|
    ensures r.Some? ==>
              && n <= r.value < |lit.lists| && Live(lit, r.value)
              && forall i :: n <= i < r.value ==> !Live(lit, i)
    ensures r.None? ==> forall i :: n <= i < |lit.lists| ==> !Live(lit, i)
    decreases |lit.lists| - n
  {
    if n == |lit.lists| then None else if Live(lit, n) then Some(n) else FirstLive(lit, n + 1)
  }

  /** How far down the first empty level is, following first live children. */
  function Depth(lit: Literal, t: Ty): nat
    requires Shaped(lit, t)
    decreases t
  {
    if !t.List? then 0
    else match FirstLive(lit, 0)
      case None => 0
      case Some(i) => Depth(lit.lists[i], t.elem) + 1
  }

  /** The declared type with nullable elements at every level. */
  function Full(t: Ty): Ty {
    if t.List? then List(Full(t.elem), true) else t
  }

  /** The type of a literal that is empty at level `d`: from there on it is the declared one. */
  function HollowType(t: Ty, d: nat): Ty {
    if d == 0 || !t.List? then List(t, true) else List(HollowType(t.elem, d - 1), true)
  }

  /** The declared type has nullable elements at level `l`. */
  predicate NullableAt(t: Ty, l: nat) {
    t.List? && if l == 0 then t.nullable else NullableAt(t.elem, l - 1)
  }

  /** Declared nullable at every level from `d` up to `e`. */
  predicate NullableFrom(t: Ty, d: nat, e: nat) {
    forall l: nat :: d <= l < e ==> NullableAt(t, l)
  }

  predicate NullableBetween(t: Ty, d: nat, e: nat) {
    if d <= e then NullableFrom(t, d, e) else NullableFrom(t, e, d)
  }

  /**
    The live children at every level are of one kind: all of them hold live entries down to the
    leaves, or none does, and the elements are declared nullable at every level between their
    empty ones.
   */
  predicate Uniform(lit: Literal, t: Ty)
    requires Shaped(lit, t)
    decreases t
  {
    match t
    case Prim => true
    case Unsupported => false
    case List(u, _) =>
      && (forall i :: 0 <= i < |lit.lists| && Live(lit, i) ==> Uniform(lit.lists[i], u))
      && ((forall i :: 0 <= i < |lit.lists| && Live(lit, i) ==> Inhabited(lit.lists[i], u))
          || (&& (forall i :: 0 <= i < |lit.lists| && Live(lit, i) ==> !Inhabited(lit.lists[i], u))
              && (forall i, j :: 0 <= i < j < |lit.lists| && Live(lit, i) && Live(lit, j) ==>
                    NullableBetween(u, Depth(lit.lists[i], u), Depth(lit.lists[j], u)))))
  }

  /** The element type that comes out of a uniform literal. */
  function BuiltType(lit: Literal, t: Ty): Ty
    requires Shaped(lit, t)
  {
    if Inhabited(lit, t) then Full(t) else HollowType(t, Depth(lit, t))
  }

  /** What the encoding of a literal comes to, by its shape and its declared type alone. */
  ghost predicate AsShaped(lit: Literal, t: Ty)
    requires Shaped(lit, t)
  {
    && (Encoded(lit, t).Ok? <==> Uniform(lit, t))
    && (Encoded(lit, t).Ok? ==> Encoded(lit, t).value == BuiltType(lit, t))
  }

  // ----- comparing the types

  lemma {:induction false} FullLevels(t: Ty)
    ensures Levels(Full(t)) == Levels(t)
  {
    if t.List? {
      FullLevels(t.elem);
    }
  }

  lemma {:induction false} HollowLevels(t: Ty, d: nat)
    ensures Levels(HollowType(t, d)) == Levels(t) + 1
    decreases d
  {
    if d > 0 && t.List? {
      HollowLevels(t.elem, d - 1);
    }
  }

  /** Types that are empty at different levels agree exactly when the elements between are nullable. */
  lemma HollowTypesAgreeExactlyWhen(t: Ty, d: nat, e: nat)
    requires d < Levels(t) && e < Levels(t)
    ensures HollowType(t, d) == HollowType(t, e) <==> NullableBetween(t, d, e)
  {
    hide NullableFrom, HollowType;
    if e < d {
      HollowsInOrder(t, e, d);
    } else {
      HollowsInOrder(t, d, e);
    }
  }

  lemma {:induction false} HollowsInOrder(t: Ty, d: nat, e: nat)
    requires d <= e < Levels(t)
    ensures HollowType(t, d) == HollowType(t, e) <==> NullableFrom(t, d, e)
    decreases t, d
  {
    hide NullableFrom;
    if d < e {
      NullableShifts(t, d, e);
      if d == 0 {
        HollowsInOrder(t.elem, 0, e - 1);
      } else {
        HollowsInOrder(t.elem, d - 1, e - 1);
      }
    } else {
      NullableNowhere(t, d);
    }
  }

  lemma NullableNowhere(t: Ty, d: nat)
    ensures NullableFrom(t, d, d)
  {
  }

  /** Nullability from one level on, in terms of the element type. */
  lemma NullableShifts(t: Ty, d: nat, e: nat)
    requires t.List? && d < e
    ensures d == 0 ==> (NullableFrom(t, 0, e) <==> t.nullable && NullableFrom(t.elem, 0, e - 1))
    ensures d > 0 ==> (NullableFrom(t, d, e) <==> NullableFrom(t.elem, d - 1, e - 1))
  {
    var from := if d == 0 then 0 else d - 1;
    if NullableFrom(t, d, e) {
      assert d == 0 ==> NullableAt(t, 0);
      forall l: nat | from <= l < e - 1
        ensures NullableAt(t.elem, l)
      {
        assert NullableAt(t, l + 1);
      }
    }
    if NullableFrom(t.elem, from, e - 1) && (d == 0 ==> t.nullable) {
      forall l: nat | d <= l < e
        ensures NullableAt(t, l)
      {
        if l > 0 {
          assert NullableAt(t.elem, l - 1);
        }
      }
    }
  }

  /** The empty level of a uniform literal is one of the declared levels. */
  lemma {:induction false} DepthBelow(lit: Literal, t: Ty)
    requires Shaped(lit, t) && Uniform(lit, t) && !Inhabited(lit, t)
    ensures Depth(lit, t) < Levels(t)
    decreases t
  {
    var first := FirstLive(lit, 0);
    if first.Some? {
      DepthBelow(lit.lists[first.value], t.elem);
    }
  }

  // ----- one level

  /** The types of the live children among the first `n`. */
  ghost function LiveTypes(lit: Literal, u: Ty, n: nat): seq<Ty>
    requires ShapedOver(lit, u) && n <= |lit.lists|
  {
    if n == 0 then []
    else LiveTypes(lit, u, n - 1) + if Live(lit, n - 1) then [BuiltType(lit.lists[n - 1], u)] else []
  }

  lemma {:induction false} ChildrenTypes(lit: Literal, u: Ty, n: nat)
    requires ShapedOver(lit, u) && n <= |lit.lists|
    requires forall i :: 0 <= i < n && Live(lit, i) ==> AsShaped(lit.lists[i], u)
    ensures Children(lit, u, n).Ok? <==> forall i :: 0 <= i < n && Live(lit, i) ==> Uniform(lit.lists[i], u)
    ensures Children(lit, u, n).Ok? ==> Children(lit, u, n).value == LiveTypes(lit, u, n)
    decreases n
  {
    hide Encoded, Uniform, BuiltType;
    if n > 0 {
      ChildrenTypes(lit, u, n - 1);
    }
  }

  /** `t` is the type of a live child among the first `n`. */
  ghost predicate SomeType(lit: Literal, u: Ty, n: nat, t: Ty)
    requires ShapedOver(lit, u) && n <= |lit.lists|
  {
    exists i :: 0 <= i < n && Live(lit, i) && BuiltType(lit.lists[i], u) == t
  }

  lemma {:induction false} LiveTypesMembers(lit: Literal, u: Ty, n: nat, t: Ty)
    requires ShapedOver(lit, u) && n <= |lit.lists|
    ensures t in LiveTypes(lit, u, n) <==> SomeType(lit, u, n, t)
  {
    hide BuiltType;
    if n > 0 {
      LiveTypesMembers(lit, u, n - 1, t);
      assert SomeType(lit, u, n, t) <==>
             SomeType(lit, u, n - 1, t) || (Live(lit, n - 1) && BuiltType(lit.lists[n - 1], u) == t);
    }
  }

  lemma {:induction false} LiveTypesFirst(lit: Literal, u: Ty, n: nat)
    requires ShapedOver(lit, u) && n <= |lit.lists|
    ensures match FirstLive(lit, 0)
            case None => LiveTypes(lit, u, n) == []
            case Some(i) => if n <= i then LiveTypes(lit, u, n) == []
                            else LiveTypes(lit, u, n) != [] && LiveTypes(lit, u, n)[0] == BuiltType(lit.lists[i], u)
  {
    hide BuiltType;
    if n > 0 {
      LiveTypesFirst(lit, u, n - 1);
    }
  }

  /** All live children have one type. */
  ghost predicate OneType(lit: Literal, u: Ty)
    requires ShapedOver(lit, u)
  {
    forall i, j :: 0 <= i < j < |lit.lists| && Live(lit, i) && Live(lit, j) ==>
      BuiltType(lit.lists[i], u) == BuiltType(lit.lists[j], u)
  }

  lemma OneTypeExactlyWhen(lit: Literal, u: Ty)
    requires ShapedOver(lit, u)
    ensures var ts := LiveTypes(lit, u, |lit.lists|);
            (forall k :: 0 <= k < |ts| ==> ts[k] == ts[0]) <==> OneType(lit, u)
  {
    hide BuiltType;
    var n := |lit.lists|;
    var ts := LiveTypes(lit, u, n);
    if forall k :: 0 <= k < |ts| ==> ts[k] == ts[0] {
      forall i, j | 0 <= i < j < n && Live(lit, i) && Live(lit, j)
        ensures BuiltType(lit.lists[i], u) == BuiltType(lit.lists[j], u)
      {
        var x, y := BuiltType(lit.lists[i], u), BuiltType(lit.lists[j], u);
        LiveTypesMembers(lit, u, n, x);
        LiveTypesMembers(lit, u, n, y);
        assert x in ts && y in ts;
      }
    } else {
      var k :| 0 <= k < |ts| && ts[k] != ts[0];
      LiveTypesMembers(lit, u, n, ts[k]);
      LiveTypesMembers(lit, u, n, ts[0]);
      assert ts[k] in ts && ts[0] in ts;
      var i :| 0 <= i < n && Live(lit, i) && BuiltType(lit.lists[i], u) == ts[k];
      var j :| 0 <= j < n && Live(lit, j) && BuiltType(lit.lists[j], u) == ts[0];
      assert i < j || j < i;
    }
  }

  /** Two uniform children have one type exactly when they are of one kind. */
  lemma KindsAgree(a: Literal, b: Literal, u: Ty)
    requires Shaped(a, u) && Shaped(b, u) && Uniform(a, u) && Uniform(b, u)
    ensures BuiltType(a, u) == BuiltType(b, u) <==>
              || (Inhabited(a, u) && Inhabited(b, u))
              || (!Inhabited(a, u) && !Inhabited(b, u) && NullableBetween(u, Depth(a, u), Depth(b, u)))
  {
    hide Uniform, Inhabited, Depth, NullableBetween;
    FullLevels(u);
    HollowLevels(u, Depth(a, u));
    HollowLevels(u, Depth(b, u));
    if !Inhabited(a, u) && !Inhabited(b, u) {
      DepthBelow(a, u);
      DepthBelow(b, u);
      HollowTypesAgreeExactlyWhen(u, Depth(a, u), Depth(b, u));
    }
  }

  lemma UniformLevel(lit: Literal, t: Ty)
    requires t.List? && Shaped(lit, t)
    ensures Uniform(lit, t) <==>
              && (forall i :: 0 <= i < |lit.lists| && Live(lit, i) ==> Uniform(lit.lists[i], t.elem))
              && OneType(lit, t.elem)
  {
    var u := t.elem;
    if forall i :: 0 <= i < |lit.lists| && Live(lit, i) ==> Uniform(lit.lists[i], u) {
      forall i, j | 0 <= i < j < |lit.lists| && Live(lit, i) && Live(lit, j)
        ensures BuiltType(lit.lists[i], u) == BuiltType(lit.lists[j], u) <==>
                  OneKind(lit.lists[i], lit.lists[j], u)
      {
        KindsAgree(lit.lists[i], lit.lists[j], u);
      }
      KindsByPairs(lit, t);
    }
  }

  ghost predicate OneKind(a: Literal, b: Literal, u: Ty)
    requires Shaped(a, u) && Shaped(b, u)
  {
    || (Inhabited(a, u) && Inhabited(b, u))
    || (!Inhabited(a, u) && !Inhabited(b, u) && NullableBetween(u, Depth(a, u), Depth(b, u)))
  }

  lemma KindsByPairs(lit: Literal, t: Ty)
    requires t.List? && Shaped(lit, t)
    requires forall i :: 0 <= i < |lit.lists| && Live(lit, i) ==> Uniform(lit.lists[i], t.elem)
    ensures Uniform(lit, t) <==>
              forall i, j :: 0 <= i < j < |lit.lists| && Live(lit, i) && Live(lit, j) ==>
                OneKind(lit.lists[i], lit.lists[j], t.elem)
  {
    if !Uniform(lit, t) {
      var i, j := TwoKinds(lit, t);
      hide OneKind, Uniform;
    }
  }

  /** A level of uniform lists that is not uniform holds two of different kinds. */
  lemma TwoKinds(lit: Literal, t: Ty) returns (i: nat, j: nat)
    requires t.List? && Shaped(lit, t) && !Uniform(lit, t)
    requires forall i :: 0 <= i < |lit.lists| && Live(lit, i) ==> Uniform(lit.lists[i], t.elem)
    ensures i < j < |lit.lists| && Live(lit, i) && Live(lit, j)
    ensures !OneKind(lit.lists[i], lit.lists[j], t.elem)
  {
    hide Inhabited, Depth, NullableBetween;
    var a: nat :| a < |lit.lists| && Live(lit, a) && !Inhabited(lit.lists[a], t.elem);
    if b: nat :| b < |lit.lists| && Live(lit, b) && Inhabited(lit.lists[b], t.elem) {
      i, j := if a < b then a else b, if a < b then b else a;
    } else {
      i, j :| i < j < |lit.lists| && Live(lit, i) && Live(lit, j)
              && !NullableBetween(t.elem, Depth(lit.lists[i], t.elem), Depth(lit.lists[j], t.elem));
    }
  }

  /** Below a level that holds live children of one kind, the types are those of the first. */
  lemma LevelType(lit: Literal, t: Ty)
    requires t.List? && Shaped(lit, t) && Uniform(lit, t)
    ensures match FirstLive(lit, 0)
            case None => BuiltType(lit, t) == List(t, true)
            case Some(i) => BuiltType(lit, t) == List(BuiltType(lit.lists[i], t.elem), true)
  {
    InhabitedByFirst(lit, t);
    hide Inhabited, Uniform, FirstLive;
  }

  lemma InhabitedByFirst(lit: Literal, t: Ty)
    requires t.List? && Shaped(lit, t) && Uniform(lit, t)
    ensures match FirstLive(lit, 0)
            case None => !Inhabited(lit, t)
            case Some(i) => Inhabited(lit, t) <==> Inhabited(lit.lists[i], t.elem)
  {
    hide FirstLive, Depth, NullableBetween;
  }

  lemma EncodedLevel(lit: Literal, t: Ty)
    requires t.List? && Shaped(lit, t)
    ensures Encoded(lit, t)
            == match Children(lit, t.elem, |lit.lists|)
               case Err(e) => Err(e)
               case Ok(ts) =>
                 if ts == [] then Ok(List(t, true))
                 else if forall k :: 0 <= k < |ts| ==> ts[k] == ts[0] then Ok(List(ts[0], true))
                 else Err(MixedTypes)
  {
    hide Children;
  }

  /**
    Encoding succeeds exactly on uniform literals, and its type is known: the declared one with
    nullable elements when every level holds a live entry, else one list level more.
   */
  lemma {:induction false} EncodesExactlyWhen(lit: Literal, t: Ty)
    requires Shaped(lit, t)
    ensures AsShaped(lit, t)
    decreases t
  {
    match t
    case Prim =>
    case Unsupported =>
    case List(u, _) =>
      forall i | 0 <= i < |lit.lists| && Live(lit, i)
        ensures AsShaped(lit.lists[i], u)
      {
        EncodesExactlyWhen(lit.lists[i], u);
      }
      hide Encoded, Uniform, BuiltType, Children, AsShaped, FirstLive, LiveTypes;
      ChildrenTypes(lit, u, |lit.lists|);
      EncodedLevel(lit, t);
      UniformLevel(lit, t);
      OneTypeExactlyWhen(lit, u);
      LiveTypesFirst(lit, u, |lit.lists|);
      if Uniform(lit, t) {
        LevelType(lit, t);
      }
      ShapeDecides(lit, t);
  }

  lemma ShapeDecides(lit: Literal, t: Ty)
    requires Shaped(lit, t)
    requires Encoded(lit, t).Ok? <==> Uniform(lit, t)
    requires Encoded(lit, t).Ok? ==> Encoded(lit, t).value == BuiltType(lit, t)
    ensures AsShaped(lit, t)
  {
  }

  /**
    The array has the declared element type exactly when every level holds a live entry and every
    level is declared with nullable elements.
   */
  lemma TypedAsDeclaredExactlyWhen(lit: Literal, t: Ty)
    requires Shaped(lit, t)
    ensures Encoded(lit, t) == Ok(t) <==> Inhabited(lit, t) && NullableFrom(t, 0, Levels(t))
  {
    EncodesExactlyWhen(lit, t);
    hide Encoded, Uniform, Inhabited, NullableFrom, Depth;
    FullIsDeclared(t);
    HollowLevels(t, Depth(lit, t));
    if Inhabited(lit, t) {
      InhabitedIsUniform(lit, t);
    }
  }

  lemma {:induction false} FullIsDeclared(t: Ty)
    ensures Full(t) == t <==> NullableFrom(t, 0, Levels(t))
  {
    hide NullableFrom;
    if t.List? {
      FullIsDeclared(t.elem);
      NullableShifts(t, 0, Levels(t));
    } else {
      NullableNowhere(t, 0);
    }
  }

  lemma {:induction false} InhabitedIsUniform(lit: Literal, t: Ty)
    requires Shaped(lit, t) && Inhabited(lit, t)
    ensures Uniform(lit, t)
    decreases t
  {
    if t.List? {
      forall i | 0 <= i < |lit.lists| && Live(lit, i)
        ensures Uniform(lit.lists[i], t.elem)
      {
        InhabitedIsUniform(lit.lists[i], t.elem);
      }
    }
  }

  /** A witness: an empty list beside a full one, one level further down. */
  lemma EmptyBesideFull(full: Literal, hollow: Literal, lit: Literal)
    requires full == Literal([], [Literal([1], [], [true])], [true])
    requires hollow == Literal([], [DEFAULT], [true])
    requires lit == Literal([], [full, hollow], [true, true])
    ensures forall m, n :: Shaped(lit, List(List(Prim, m), n)) && Encoded(lit, List(List(Prim, m), n)).Err?
  {
    forall m, n
      ensures Shaped(lit, List(List(Prim, m), n)) && Encoded(lit, List(List(Prim, m), n)).Err?
    {
      var u := List(Prim, m);
      OneEmptyLevel(hollow, u);
      OneFullLevel(full, m);
      assert lit.lists[0] == full && lit.lists[1] == hollow && full != DEFAULT && hollow != DEFAULT;
      assert Live(lit, 0) && Live(lit, 1);
      hide Inhabited, Encoded;
      EncodesExactlyWhen(lit, List(u, n));
    }
  }

  /**
    A witness: literals that are empty at different levels, where the elements between are declared
    not to be null.
   */
  lemma EmptyAtTwoLevels(one: Literal, two: Literal, lit: Literal, n: bool)
    requires one == Literal([], [DEFAULT], [true])
    requires two == Literal([], [one], [true])
    requires lit == Literal([], [one, two], [true, true])
    ensures var t := List(List(List(Prim, true), n), true);
            Shaped(lit, t) && (Encoded(lit, t).Err? <==> !n)
  {
    var v := List(Prim, true);
    var u := List(v, n);
    OneEmptyLevel(one, v);
    OneEmptyLevel(one, u);
    TwoEmptyLevels(one, two, u);
    assert lit.lists[0] == one && lit.lists[1] == two && one != DEFAULT && two != DEFAULT;
    assert Live(lit, 0) && Live(lit, 1);
    assert NullableBetween(u, 0, 1) <==> NullableAt(u, 0);
    hide Inhabited, Depth, NullableBetween, Encoded, Uniform, Live;
    KindsByPairs(lit, List(u, true));
    assert OneKind(lit.lists[0], lit.lists[1], u) <==> n;
    EncodesExactlyWhen(lit, List(u, true));
  }

  lemma TwoEmptyLevels(one: Literal, two: Literal, t: Ty)
    requires one == Literal([], [DEFAULT], [true]) && two == Literal([], [one], [true]) && t.List? && t.elem.List?
    ensures Shaped(two, t) && !Inhabited(two, t) && Depth(two, t) == 1 && Uniform(two, t)
  {
    OneEmptyLevel(one, t.elem);
    assert two.lists[0] == one && one.lists != DEFAULT.lists;
    assert Live(two, 0);
    assert FirstLive(two, 0) == Some(0);
  }

  lemma OneFullLevel(full: Literal, m: bool)
    requires full == Literal([], [Literal([1], [], [true])], [true])
    ensures Shaped(full, List(Prim, m)) && Inhabited(full, List(Prim, m))
  {
    assert full.lists[0].prims == [1];
    assert Live(full, 0);
    assert Inhabited(full.lists[0], Prim);
  }

  lemma OneEmptyLevel(one: Literal, t: Ty)
    requires one == Literal([], [DEFAULT], [true]) && t.List?
    ensures Shaped(one, t) && !Live(one, 0) && !Inhabited(one, t) && Depth(one, t) == 0 && Uniform(one, t)
  {
  }
}
