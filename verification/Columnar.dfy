/**
  Converting Parquet arrays to the requested Spark type: nested struct, list and map arrays
  are converted column by column, structs by field name. The result is proved to hold, row by
  row, what converting each row by itself gives.
 */
module Columnar {
  import opened Wrappers

  datatype Field = Field(name: string, ty: Ty, nullable: bool)

  datatype Ty =
    | Leaf(id: nat)
    | Struct(fields: seq<Field>)
    | List(elem: Ty, nullable: bool)
    | Map(key: Ty, value: Ty, nullable: bool, ordered: bool)    // keys and entries are never nullable
    | Dict(id: nat)                                             // dictionary-encoded strings

  /**
    The conversion options. `can` and `cast` stand for Arrow's leaf casts, `lower` for
    lower-casing a name.
   */
  datatype Options = Options(
    caseSensitive: bool,
    lower: string -> string,
    can: (nat, nat) -> bool,
    cast: (nat, nat, int) -> Option<int>)

  /** Arrays in memory; a set flag means valid. */
  datatype Arr =
    | LeafArr(id: nat, cells: seq<Option<int>>)
    | StructArr(fields: seq<Field>, cols: seq<Arr>, valid: seq<bool>)
    | ListArr(elem: Ty, nullable: bool, offsets: seq<nat>, values: Arr, valid: seq<bool>)
    | MapArr(nullable: bool, ordered: bool, offsets: seq<nat>, keys: Arr, vals: Arr,
             entryValid: seq<bool>, valid: seq<bool>)
    | DictArr(id: nat, keys32: seq<Option<nat>>, words: seq<Option<int>>)

  /** One row of an array. */
  datatype Value = Null | Cell(c: int) | Fields(vals: seq<Value>) | Items(items: seq<Value>)

  function TypeOf(a: Arr): Ty {
    match a
    case LeafArr(id, _) => Leaf(id)
    case StructArr(fields, _, _) => Struct(fields)
    case ListArr(elem, nullable, _, _, _) => List(elem, nullable)
    case MapArr(nullable, ordered, _, keys, vals, _, _) => Map(TypeOf(keys), TypeOf(vals), nullable, ordered)
    case DictArr(id, _, _) => Dict(id)
  }

  function Len(a: Arr): nat {
    match a
    case LeafArr(_, cells) => |cells|
    case DictArr(_, keys32, _) => |keys32|
    case _ => |a.valid|
  }

  /** Offsets never decrease and stay within the child values. */
  predicate GoodOffsets(offsets: seq<nat>, slots: nat, len: nat) {
    && |offsets| == slots + 1
    && offsets[slots] <= len
    && forall i, j :: 0 <= i <= j <= slots ==> offsets[i] <= offsets[j]
  }

  /** What the Arrow array constructors check, except for nulls. */
  predicate Valid(a: Arr) {
    match a
    case LeafArr(_, _) => true
    case StructArr(fields, cols, valid) =>
      && |cols| == |fields|
      && forall i :: 0 <= i < |cols| ==> Valid(cols[i]) && TypeOf(cols[i]) == fields[i].ty && Len(cols[i]) == |valid|
    case ListArr(elem, _, offsets, values, valid) =>
      Valid(values) && TypeOf(values) == elem && GoodOffsets(offsets, |valid|, Len(values))
    case MapArr(_, _, offsets, keys, vals, entryValid, valid) =>
      && Valid(keys) && Valid(vals) && Len(keys) == Len(vals) == |entryValid|
      && GoodOffsets(offsets, |valid|, |entryValid|)
    case DictArr(_, keys32, words) =>
      forall i :: 0 <= i < |keys32| && keys32[i].Some? ==> keys32[i].value < |words|
  }

  // ----- rows

  function CellOf(c: Option<int>): Value {
    match c
    case None => Null
    case Some(v) => Cell(v)
  }

  /** The rows that an array holds. */
  ghost function Rows(a: Arr): (r: seq<Value>)
    requires Valid(a)
    ensures |r| == Len(a)
    decreases a, 1
  {
    seq(Len(a), i requires 0 <= i < Len(a) => Row(a, i))
  }

  ghost function Row(a: Arr, i: nat): Value
    requires Valid(a) && i < Len(a)
    decreases a, 0
  {
    match a
    case LeafArr(_, cells) => CellOf(cells[i])
    case StructArr(_, cols, valid) =>
      if !valid[i] then Null
      else Fields(seq(|cols|, k requires 0 <= k < |cols| => Row(cols[k], i)))
    case ListArr(_, _, offsets, values, valid) =>
      if !valid[i] then Null else Items(Rows(values)[offsets[i]..offsets[i + 1]])
    case MapArr(_, _, offsets, keys, vals, entryValid, valid) =>
      if !valid[i] then Null
      else Items(Entries(Rows(keys), Rows(vals), entryValid)[offsets[i]..offsets[i + 1]])
    case DictArr(_, keys32, words) =>
      match keys32[i]
      case None => Null
      case Some(k) => CellOf(words[k])
  }

  /** Map entries as rows of two fields. */
  function Entries(keys: seq<Value>, vals: seq<Value>, valid: seq<bool>): (r: seq<Value>)
    requires |keys| == |vals| == |valid|
    ensures |r| == |valid|
  {
    seq(|valid|, i requires 0 <= i < |valid| => if valid[i] then Fields([keys[i], vals[i]]) else Null)
  }

  // ----- nulls

  predicate IsNull(a: Arr, i: nat)
    requires Valid(a) && i < Len(a)
  {
    match a
    case LeafArr(_, cells) => cells[i].None?
    case DictArr(_, keys32, words) => keys32[i].None? || words[keys32[i].value].None?
    case _ => !a.valid[i]
  }

  function Nulls(a: Arr): (r: seq<bool>)
    requires Valid(a)
    ensures |r| == Len(a) && forall i :: 0 <= i < Len(a) ==> r[i] == IsNull(a, i)
  {
    seq(Len(a), i requires 0 <= i < Len(a) => IsNull(a, i))
  }

  lemma NullRow(a: Arr, i: nat)
    requires Valid(a) && i < Len(a)
    ensures Row(a, i) == Null <==> IsNull(a, i)
  {
  }

  predicate NoNulls(a: Arr)
    requires Valid(a)
  {
    forall i :: 0 <= i < Len(a) ==> !IsNull(a, i)
  }

  /** A struct column: of the field's type, and without a null in a valid row unless it may have one. */
  predicate ColumnFits(col: Arr, g: Field, valid: seq<bool>)
    requires Valid(col) && Len(col) == |valid|
  {
    TypeOf(col) == g.ty && (g.nullable || forall x :: 0 <= x < Len(col) && valid[x] ==> !IsNull(col, x))
  }

  /** What the constructors check about nulls: none where the type allows none, unless it is masked. */
  predicate NullSafe(a: Arr)
    requires Valid(a)
  {
    match a
    case StructArr(fields, cols, valid) =>
      forall k :: 0 <= k < |cols| ==> NullSafe(cols[k]) && ColumnFits(cols[k], fields[k], valid)
    case ListArr(_, nullable, _, values, _) => NullSafe(values) && (nullable || NoNulls(values))
    case MapArr(nullable, _, _, keys, vals, entryValid, _) =>
      && NullSafe(keys) && NullSafe(vals) && (forall k :: 0 <= k < |entryValid| ==> entryValid[k])
      && NoNulls(keys) && (nullable || NoNulls(vals))
    case _ => true
  }

  // ----- field names

  function Norm(opts: Options, name: string): string {
    if opts.caseSensitive then name else (opts.lower)(name)
  }

  /** The last field with the given normalized name. */
  function FieldIndex(fields: seq<Field>, key: string, opts: Options): (r: Option<nat>)
    ensures r.Some? ==> r.value < |fields| && Norm(opts, fields[r.value].name) == key
    ensures r.None? ==> forall i :: 0 <= i < |fields| ==> Norm(opts, fields[i].name) != key
  {
    if fields == [] then None
    else if Norm(opts, fields[|fields| - 1].name) == key then Some(|fields| - 1)
    else FieldIndex(fields[..|fields| - 1], key, opts)
  }

  /** No two fields share a normalized name. */
  ghost predicate Distinct(fields: seq<Field>, opts: Options) {
    forall i, j :: 0 <= i < j < |fields| ==> Norm(opts, fields[i].name) != Norm(opts, fields[j].name)
  }

  ghost predicate Overlap(from: seq<Field>, to: seq<Field>, opts: Options) {
    exists i :: 0 <= i < |to| && FieldIndex(from, Norm(opts, to[i].name), opts).Some?
  }

  // ----- the row-by-row reference

  /** One row converted by itself. */
  ghost function ConvertValue(v: Value, from: Ty, to: Ty, opts: Options): Value
    decreases (to), 1
  {
    match (v, from, to)
    case (Cell(c), Leaf(a), Leaf(b)) => CellOf((opts.cast)(a, b, c))
    case (Cell(c), Dict(a), Leaf(b)) => CellOf((opts.cast)(a, b, c))
    case (Fields(vals), Struct(f), Struct(g)) =>
      if !Overlap(f, g, opts) || |vals| != |f| then Null
      else Fields(seq(|g|, i requires 0 <= i < |g| => ConvertField(vals, f, g[i], opts)))
    case (Items(items), List(a, _), List(b, _)) =>
      Items(seq(|items|, i requires 0 <= i < |items| => ConvertValue(items[i], a, b, opts)))
    case (Items(items), Map(k, w, _, _), Map(k', w', _, _)) =>
      Items(seq(|items|, i requires 0 <= i < |items| =>
        match items[i]
        case Fields(kv) =>
          if |kv| == 2 then Fields([ConvertValue(kv[0], k, k', opts), ConvertValue(kv[1], w, w', opts)]) else Null
        case _ => Null))
    case _ => Null
  }

  /** A target field: the same-named source field converted, or null. */
  ghost function ConvertField(vals: seq<Value>, f: seq<Field>, g: Field, opts: Options): Value
    requires |vals| == |f|
    decreases g, 0
  {
    match FieldIndex(f, Norm(opts, g.name), opts)
    case Some(j) => ConvertValue(vals[j], f[j].ty, g.ty, opts)
    case None => Null
  }

  /** Arrow casts every type to itself, and others as `can` says. */
  predicate Can(opts: Options, a: nat, b: nat) {
    a == b || (opts.can)(a, b)
  }

  /** The pairs of types that Comet converts itself, with castable leaves. */
  ghost predicate Convertible(from: Ty, to: Ty, opts: Options)
    decreases (to)
  {
    match (from, to)
    case (Leaf(a), Leaf(b)) => Can(opts, a, b)
    case (Dict(a), Leaf(b)) => Can(opts, a, b)
    case (Struct(f), Struct(g)) =>
      && Distinct(f, opts) && g != []
      && forall i :: 0 <= i < |g| ==> FieldConvertible(f, g[i], opts)
    case (List(a, _), List(b, _)) => Convertible(a, b, opts)
    case (Map(k, w, _, o), Map(k', w', _, o')) => o == o' && Convertible(k, k', opts) && Convertible(w, w', opts)
    case _ => false
  }

  /** A target field that the source lacks, or whose source field is convertible. */
  ghost predicate FieldConvertible(f: seq<Field>, g: Field, opts: Options)
    decreases g
  {
    var j := FieldIndex(f, Norm(opts, g.name), opts);
    j.Some? ==> Convertible(f[j.value].ty, g.ty, opts)
  }

  /** Every row of `b` is the row of `a` converted by itself. */
  ghost predicate Converted(a: Arr, b: Arr, to: Ty, opts: Options)
    requires Valid(a)
  {
    && Valid(b) && TypeOf(b) == to && Len(b) == Len(a)
    && forall i :: 0 <= i < Len(a) ==> Row(b, i) == ConvertValue(Row(a, i), TypeOf(a), to, opts)
  }

  // ----- the array that comes out, part by part

  /**
    `b` is laid out as the conversion of `a` to the type `to`: cells are cast one by one, lists and
    maps keep their offsets and masks, and struct columns go by name, compared as they are or
    lower-cased.
   */
  ghost predicate Laid(a: Arr, b: Arr, to: Ty, opts: Options)
    decreases (to)
  {
    match (a, b, to)
    case (LeafArr(id, cells), LeafArr(id', cells'), Leaf(t)) => LaidCells(id, cells, id', cells', t, opts)
    case (DictArr(id, keys32, words), LeafArr(id', cells'), Leaf(t)) =>
      && |cells'| == |keys32|
      && LaidCells(id, seq(|keys32|, x requires 0 <= x < |keys32| => WordAt(keys32[x], words)), id', cells', t, opts)
    case (StructArr(f, cols, valid), StructArr(f', cols', valid'), Struct(g)) =>
      && f' == g && |cols'| == |g| && |cols| == |f| && |valid'| == |valid|
      && (forall i :: 0 <= i < |g| ==> LaidField(f, cols, g[i], cols'[i], opts))
      && forall x :: 0 <= x < |valid| ==>
           (valid'[x] <==>
              valid[x] && exists i, j :: 0 <= i < |g| && 0 <= j < |f| && SameName(opts, f[j].name, g[i].name))
    case (ListArr(_, _, offsets, values, valid), ListArr(e', n', offsets', values', valid'), List(e, n)) =>
      e' == e && n' == n && offsets' == offsets && valid' == valid && Laid(values, values', e, opts)
    case (MapArr(_, _, offsets, keys, vals, ents, valid), MapArr(n', o', offsets', keys', vals', ents', valid'),
          Map(k, w, n, o)) =>
      && n' == n && o' == o && offsets' == offsets && ents' == ents && valid' == valid
      && Laid(keys, keys', k, opts) && Laid(vals, vals', w, opts)
    case _ => false
  }

  /** Cells cast one by one, or left alone where Arrow has no cast. */
  ghost predicate LaidCells(
      id: nat, cells: seq<Option<int>>, id': nat, cells': seq<Option<int>>, to: nat, opts: Options) {
    && |cells'| == |cells|
    && if id == to || (opts.can)(id, to) then
         && id' == to
         && forall x :: 0 <= x < |cells| ==>
              cells'[x] == match cells[x] case None => None case Some(c) => (opts.cast)(id, to, c)
       else id' == id && cells' == cells
  }

  function WordAt(key: Option<nat>, words: seq<Option<int>>): Option<int> {
    if key.Some? && key.value < |words| then words[key.value] else None
  }

  /** A target column is laid out from the source column of its name, and is null without one. */
  ghost predicate LaidField(f: seq<Field>, cols: seq<Arr>, g: Field, col: Arr, opts: Options)
    requires |cols| == |f|
    decreases g
  {
    && (forall j :: 0 <= j < |f| && SameName(opts, f[j].name, g.name) ==> Laid(cols[j], col, g.ty, opts))
    && ((forall j :: 0 <= j < |f| ==> !SameName(opts, f[j].name, g.name))
        ==> Valid(col) && TypeOf(col) == g.ty && forall x :: 0 <= x < Len(col) ==> Row(col, x) == Null)
  }

  /** Names are compared as they are, or lower-cased. */
  predicate SameName(opts: Options, x: string, y: string) {
    if opts.caseSensitive then x == y else (opts.lower)(x) == (opts.lower)(y)
  }

  lemma SameNorm(opts: Options, x: string, y: string)
    ensures Norm(opts, x) == Norm(opts, y) <==> SameName(opts, x, y)
  {
  }

  lemma LaidFound(a: Arr, g: Field, opts: Options, j: nat, col: Arr)
    requires a.StructArr? && Valid(a) && Distinct(a.fields, opts)
    requires FieldIndex(a.fields, Norm(opts, g.name), opts) == Some(j) && Laid(a.cols[j], col, g.ty, opts)
    ensures LaidField(a.fields, a.cols, g, col, opts)
  {
    hide Laid, Norm, SameName, Row, FieldIndex;
    IndexHasName(a.fields, Norm(opts, g.name), opts, j);
    SameNorm(opts, a.fields[j].name, g.name);
    forall k | 0 <= k < |a.fields|
      ensures SameName(opts, a.fields[k].name, g.name) <==> k == j
    {
      SameNorm(opts, a.fields[k].name, g.name);
    }
  }

  lemma IndexHasName(f: seq<Field>, key: string, opts: Options, j: nat)
    requires FieldIndex(f, key, opts) == Some(j)
    ensures j < |f| && Norm(opts, f[j].name) == key
  {
  }

  lemma LaidMissing(a: Arr, g: Field, opts: Options, col: Arr)
    requires a.StructArr? && Valid(a) && FieldIndex(a.fields, Norm(opts, g.name), opts).None?
    requires col == NullArr(g.ty, Len(a))
    ensures LaidField(a.fields, a.cols, g, col, opts)
  {
    hide Laid, Norm, SameName, Row, FieldIndex, NullArr;
    forall k | 0 <= k < |a.fields|
      ensures !SameName(opts, a.fields[k].name, g.name)
    {
      IndexMisses(a.fields, Norm(opts, g.name), opts, k);
      SameNorm(opts, a.fields[k].name, g.name);
    }
    forall x | 0 <= x < Len(col)
      ensures Row(col, x) == Null
    {
      NullArrIsNull(g.ty, Len(a), x);
    }
  }

  lemma IndexMisses(f: seq<Field>, key: string, opts: Options, k: nat)
    requires FieldIndex(f, key, opts).None? && k < |f|
    ensures Norm(opts, f[k].name) != key
  {
  }

  /** The structs have a field in common exactly when two of their names agree. */
  lemma OverlapIs(f: seq<Field>, g: seq<Field>, opts: Options)
    ensures Overlap(f, g, opts)
            <==> exists i, j :: 0 <= i < |g| && 0 <= j < |f| && SameName(opts, f[j].name, g[i].name)
  {
    hide Norm, SameName, FieldIndex;
    forall i, j | 0 <= i < |g| && 0 <= j < |f|
      ensures SameName(opts, f[j].name, g[i].name) ==> FieldIndex(f, Norm(opts, g[i].name), opts).Some?
    {
      SameNorm(opts, f[j].name, g[i].name);
      if FieldIndex(f, Norm(opts, g[i].name), opts).None? {
        IndexMisses(f, Norm(opts, g[i].name), opts, j);
      }
    }
    if Overlap(f, g, opts) {
      var i :| 0 <= i < |g| && FieldIndex(f, Norm(opts, g[i].name), opts).Some?;
      var j := FieldIndex(f, Norm(opts, g[i].name), opts).value;
      IndexHasName(f, Norm(opts, g[i].name), opts, j);
      SameNorm(opts, f[j].name, g[i].name);
    }
  }

  /** No two names agree exactly when the fields are distinct. */
  lemma DistinctIs(f: seq<Field>, opts: Options)
    ensures Distinct(f, opts)
            <==> forall i, j :: 0 <= i < j < |f| ==> !SameName(opts, f[i].name, f[j].name)
  {
    hide Norm, SameName;
    forall i, j | 0 <= i < j < |f|
      ensures Norm(opts, f[i].name) != Norm(opts, f[j].name)
              <==> !SameName(opts, f[i].name, f[j].name)
    {
      SameNorm(opts, f[i].name, f[j].name);
    }
  }

  lemma LaidStruct(a: Arr, to: Ty, opts: Options, cols: seq<Arr>, valid: seq<bool>)
    requires a.StructArr? && Valid(a) && to.Struct? && |cols| == |to.fields|
    requires forall i :: 0 <= i < |cols| ==> LaidField(a.fields, a.cols, to.fields[i], cols[i], opts)
    requires valid == if Overlap(a.fields, to.fields, opts) then a.valid else seq(Len(a), i => false)
    ensures Laid(a, StructArr(to.fields, cols, valid), to, opts)
  {
    hide LaidField, Overlap;
    OverlapIs(a.fields, to.fields, opts);
  }

  // ----- null arrays

  /** `new_null_array`. */
  function NullArr(t: Ty, n: nat): (a: Arr)
    ensures Valid(a) && TypeOf(a) == t && Len(a) == n
    decreases t
  {
    match t
    case Leaf(id) => LeafArr(id, seq(n, i => None))
    case Struct(f) => StructArr(f, seq(|f|, i requires 0 <= i < |f| => NullArr(f[i].ty, n)), seq(n, i => false))
    case List(e, m) => ListArr(e, m, seq(n + 1, i => 0), NullArr(e, 0), seq(n, i => false))
    case Map(k, v, m, o) => MapArr(m, o, seq(n + 1, i => 0), NullArr(k, 0), NullArr(v, 0), [], seq(n, i => false))
    case Dict(id) => DictArr(id, seq(n, i => None), [])
  }

  lemma NullArrIsNull(t: Ty, n: nat, i: nat)
    requires i < n
    ensures Row(NullArr(t, n), i) == Null
  {
  }

  lemma {:induction false} NullArrSafe(t: Ty, n: nat)
    ensures NullSafe(NullArr(t, n)) && Nulls(NullArr(t, n)) == seq(n, i => true)
    decreases t
  {
    match t
    case Struct(f) =>
      forall k | 0 <= k < |f|
        ensures NullSafe(NullArr(f[k].ty, n))
      {
        NullArrSafe(f[k].ty, n);
      }
    case List(e, _) => NullArrSafe(e, 0);
    case Map(k, v, _, _) =>
      NullArrSafe(k, 0);
      NullArrSafe(v, 0);
    case _ =>
  }

  // ----- the parts of the proof, one kind of array each

  lemma LeafConverted(a: Arr, to: Ty, opts: Options, b: Arr)
    requires a.LeafArr? && to.Leaf? && b == LeafArr(to.id, CastAll(a.cells, a.id, to.id, opts))
    ensures Converted(a, b, to, opts)
  {
  }

  /** Arrow's safe cast: a value that cannot be cast becomes null. */
  function CastAll(cells: seq<Option<int>>, from: nat, to: nat, opts: Options): (r: seq<Option<int>>)
    ensures |r| == |cells|
  {
    seq(|cells|, i requires 0 <= i < |cells| =>
      match cells[i]
      case None => None
      case Some(c) => (opts.cast)(from, to, c))
  }

  /** `take`: the cast dictionary values, by key. */
  function Take(keys: seq<Option<nat>>, words: seq<Option<int>>): (r: seq<Option<int>>)
    requires forall i :: 0 <= i < |keys| && keys[i].Some? ==> keys[i].value < |words|
    ensures |r| == |keys|
  {
    seq(|keys|, i requires 0 <= i < |keys| =>
      match keys[i]
      case None => None
      case Some(k) => words[k])
  }

  lemma DictConverted(a: Arr, to: Ty, opts: Options, b: Arr)
    requires a.DictArr? && Valid(a) && to.Leaf?
    requires b == LeafArr(to.id, Take(a.keys32, CastAll(a.words, a.id, to.id, opts)))
    ensures Converted(a, b, to, opts)
  {
  }

  lemma RowsSlice(a: Arr, b: Arr, to: Ty, opts: Options, i: nat, j: nat)
    requires Valid(a) && Converted(a, b, to, opts) && i <= j <= Len(a)
    ensures |Rows(b)[i..j]| == j - i
    ensures forall k :: 0 <= k < j - i ==> Rows(b)[i..j][k] == ConvertValue(Rows(a)[i..j][k], TypeOf(a), to, opts)
  {
    hide Row, ConvertValue, Valid;
    forall k | 0 <= k < j - i
      ensures Rows(b)[i..j][k] == ConvertValue(Rows(a)[i..j][k], TypeOf(a), to, opts)
    {
      assert Rows(b)[i..j][k] == Row(b, i + k) && Rows(a)[i..j][k] == Row(a, i + k);
    }
  }

  lemma ListConverted(a: Arr, to: Ty, opts: Options, values: Arr)
    requires a.ListArr? && Valid(a) && to.List? && Converted(a.values, values, to.elem, opts)
    ensures Converted(a, ListArr(to.elem, to.nullable, a.offsets, values, a.valid), to, opts)
  {
    hide Converted, Rows;
    var b := ListArr(to.elem, to.nullable, a.offsets, values, a.valid);
    ConvertedShape(a.values, values, to.elem, opts);
    forall i | 0 <= i < Len(a)
      ensures Row(b, i) == ConvertValue(Row(a, i), TypeOf(a), to, opts)
    {
      if a.valid[i] {
        var p, q := a.offsets[i], a.offsets[i + 1];
        RowsSlice(a.values, values, to.elem, opts, p, q);
        var items := Rows(a.values)[p..q];
        assert Row(a, i) == Items(items);
        assert Rows(values)[p..q] == seq(|items|, k requires 0 <= k < |items| => ConvertValue(items[k], a.elem,
          to.elem, opts));
      }
    }
    ConvertedFrom(a, b, to, opts);
  }

  lemma ConvertedShape(a: Arr, b: Arr, to: Ty, opts: Options)
    requires Valid(a) && Converted(a, b, to, opts)
    ensures Valid(b) && TypeOf(b) == to && Len(b) == Len(a)
  {
  }

  lemma ConvertedFrom(a: Arr, b: Arr, to: Ty, opts: Options)
    requires Valid(a) && Valid(b) && TypeOf(b) == to && Len(b) == Len(a)
    requires forall i :: 0 <= i < Len(a) ==> Row(b, i) == ConvertValue(Row(a, i), TypeOf(a), to, opts)
    ensures Converted(a, b, to, opts)
  {
  }

  /** One map entry converted. */
  ghost function ConvertEntry(e: Value, from: Ty, to: Ty, opts: Options): Value
    requires from.Map? && to.Map?
  {
    match e
    case Fields(kv) =>
      if |kv| != 2 then Null
      else Fields([ConvertValue(kv[0], from.key, to.key, opts), ConvertValue(kv[1], from.value, to.value, opts)])
    case _ => Null
  }

  lemma ConvertMapRow(items: seq<Value>, from: Ty, to: Ty, opts: Options)
    requires from.Map? && to.Map?
    ensures ConvertValue(Items(items), from, to, opts)
            == Items(seq(|items|, i requires 0 <= i < |items| => ConvertEntry(items[i], from, to, opts)))
  {
    var x := ConvertValue(Items(items), from, to, opts).items;
    var y := seq(|items|, i requires 0 <= i < |items| => ConvertEntry(items[i], from, to, opts));
    assert forall i :: 0 <= i < |items| ==> x[i] == y[i];
  }

  lemma RowConverted(a: Arr, b: Arr, to: Ty, opts: Options, k: nat)
    requires Valid(a) && Converted(a, b, to, opts) && k < Len(a)
    ensures Valid(b) && Len(b) == Len(a) && Rows(b)[k] == ConvertValue(Rows(a)[k], TypeOf(a), to, opts)
  {
    hide ConvertValue, Row, Valid;
  }

  lemma MapParts(a: Arr)
    requires a.MapArr? && Valid(a)
    ensures Valid(a.keys) && Valid(a.vals) && Len(a.keys) == Len(a.vals) == |a.entryValid|
  {
  }

  lemma EntriesConverted(a: Arr, to: Ty, opts: Options, keys: Arr, vals: Arr, k: nat)
    requires a.MapArr? && Valid(a) && to.Map? && k < |a.entryValid|
    requires Converted(a.keys, keys, to.key, opts) && Converted(a.vals, vals, to.value, opts)
    ensures Len(keys) == Len(vals) == |a.entryValid|
    ensures Entries(Rows(keys), Rows(vals), a.entryValid)[k]
            == ConvertEntry(Entries(Rows(a.keys), Rows(a.vals), a.entryValid)[k], TypeOf(a), to, opts)
  {
    MapParts(a);
    hide ConvertValue, Row, Rows, Valid, Converted, Entries;
    RowConverted(a.keys, keys, to.key, opts, k);
    RowConverted(a.vals, vals, to.value, opts, k);
    EntryAt(Rows(keys), Rows(vals), a.entryValid, k);
    EntryAt(Rows(a.keys), Rows(a.vals), a.entryValid, k);
  }

  lemma EntryAt(keys: seq<Value>, vals: seq<Value>, valid: seq<bool>, k: nat)
    requires |keys| == |vals| == |valid| && k < |valid|
    ensures Entries(keys, vals, valid)[k] == if valid[k] then Fields([keys[k], vals[k]]) else Null
  {
  }

  lemma MapConverted(a: Arr, to: Ty, opts: Options, keys: Arr, vals: Arr)
    requires a.MapArr? && Valid(a) && to.Map?
    requires Converted(a.keys, keys, to.key, opts) && Converted(a.vals, vals, to.value, opts)
    ensures Converted(a, MapArr(to.nullable, to.ordered, a.offsets, keys, vals, a.entryValid, a.valid), to, opts)
  {
    hide Converted, Rows, Entries, ConvertEntry, ConvertValue;
    var b := MapArr(to.nullable, to.ordered, a.offsets, keys, vals, a.entryValid, a.valid);
    ConvertedShape(a.keys, keys, to.key, opts);
    ConvertedShape(a.vals, vals, to.value, opts);
    var x, y := Entries(Rows(a.keys), Rows(a.vals), a.entryValid), Entries(Rows(keys), Rows(vals), a.entryValid);
    forall i | 0 <= i < Len(a)
      ensures Row(b, i) == ConvertValue(Row(a, i), TypeOf(a), to, opts)
    {
      if a.valid[i] {
        var p, q := a.offsets[i], a.offsets[i + 1];
        var items := x[p..q];
        assert Row(a, i) == Items(items) && Row(b, i) == Items(y[p..q]);
        ConvertMapRow(items, TypeOf(a), to, opts);
        forall k | 0 <= k < q - p
          ensures y[p..q][k] == ConvertEntry(items[k], TypeOf(a), to, opts)
        {
          EntriesConverted(a, to, opts, keys, vals, p + k);
          assert y[p..q][k] == y[p + k] && items[k] == x[p + k];
        }
        assert y[p..q] == seq(|items|, k requires 0 <= k < |items| => ConvertEntry(items[k], TypeOf(a), to, opts));
      } else {
        ConvertNull(TypeOf(a), to, opts);
      }
    }
    ConvertedFrom(a, b, to, opts);
  }

  lemma ConvertNull(from: Ty, to: Ty, opts: Options)
    ensures ConvertValue(Null, from, to, opts) == Null
  {
  }

  /** The fields of row `x`, whether the row is null or not. */
  ghost function RowFields(a: Arr, x: nat): (r: seq<Value>)
    requires a.StructArr? && Valid(a) && x < Len(a)
    ensures |r| == |a.cols|
  {
    seq(|a.cols|, k requires 0 <= k < |a.cols| => Row(a.cols[k], x))
  }

  /** A target column: the same-named source column converted, or nulls. */
  ghost predicate ColumnDone(a: Arr, g: Field, opts: Options, col: Arr)
    requires a.StructArr? && Valid(a)
  {
    && Valid(col) && TypeOf(col) == g.ty && Len(col) == Len(a)
    && forall x :: 0 <= x < Len(a) ==> Row(col, x) == ConvertField(RowFields(a, x), a.fields, g, opts)
  }

  lemma FoundColumn(a: Arr, g: Field, opts: Options, j: nat, col: Arr)
    requires a.StructArr? && Valid(a) && FieldIndex(a.fields, Norm(opts, g.name), opts) == Some(j)
    requires Converted(a.cols[j], col, g.ty, opts)
    ensures ColumnDone(a, g, opts, col)
  {
    hide Row, ConvertValue, FieldIndex;
  }

  lemma MissingColumn(a: Arr, g: Field, opts: Options)
    requires a.StructArr? && Valid(a) && FieldIndex(a.fields, Norm(opts, g.name), opts).None?
    ensures ColumnDone(a, g, opts, NullArr(g.ty, Len(a)))
  {
    hide Row, ConvertValue, FieldIndex, NullArr;
    forall x | 0 <= x < Len(a)
      ensures Row(NullArr(g.ty, Len(a)), x) == Null
    {
      NullArrIsNull(g.ty, Len(a), x);
    }
  }

  lemma StructConverted(a: Arr, to: Ty, opts: Options, cols: seq<Arr>, valid: seq<bool>)
    requires a.StructArr? && Valid(a) && to.Struct? && |cols| == |to.fields|
    requires forall i :: 0 <= i < |cols| ==> ColumnDone(a, to.fields[i], opts, cols[i])
    requires valid == if Overlap(a.fields, to.fields, opts) then a.valid else seq(Len(a), i => false)
    ensures Converted(a, StructArr(to.fields, cols, valid), to, opts)
  {
    hide Converted, FieldIndex, Overlap;
    var b := StructArr(to.fields, cols, valid);
    assert Valid(b);
    forall x | 0 <= x < Len(a)
      ensures Row(b, x) == ConvertValue(Row(a, x), TypeOf(a), to, opts)
    {
      StructRow(a, to, opts, cols, valid, x);
    }
    ConvertedFrom(a, b, to, opts);
  }

  lemma StructRow(a: Arr, to: Ty, opts: Options, cols: seq<Arr>, valid: seq<bool>, x: nat)
    requires a.StructArr? && Valid(a) && to.Struct? && |cols| == |to.fields| && x < Len(a)
    requires forall i :: 0 <= i < |cols| ==> ColumnDone(a, to.fields[i], opts, cols[i])
    requires valid == if Overlap(a.fields, to.fields, opts) then a.valid else seq(Len(a), i => false)
    requires Valid(StructArr(to.fields, cols, valid))
    ensures Row(StructArr(to.fields, cols, valid), x) == ConvertValue(Row(a, x), TypeOf(a), to, opts)
  {
    hide FieldIndex, Overlap;
    var b := StructArr(to.fields, cols, valid);
    if a.valid[x] && Overlap(a.fields, to.fields, opts) {
      var vals := RowFields(a, x);
      assert Row(a, x) == Fields(vals);
      var lhs := seq(|cols|, k requires 0 <= k < |cols| => Row(cols[k], x));
      var rhs := seq(|to.fields|, i requires 0 <= i < |to.fields| => ConvertField(vals, a.fields, to.fields[i], opts));
      forall i | 0 <= i < |cols|
        ensures lhs[i] == rhs[i]
      {
        assert ColumnDone(a, to.fields[i], opts, cols[i]);
      }
      assert lhs == rhs;
      assert Row(b, x) == Fields(lhs);
      assert ConvertValue(Fields(vals), TypeOf(a), to, opts) == Fields(rhs);
    } else {
      assert Row(b, x) == Null;
    }
  }

  // ----- the conversion

  /**
    A converted array; an array that Arrow's own casts decide about, which are not modelled;
    or a panic of an assertion or of an array constructor.
   */
  datatype Outcome = Done(arr: Arr) | Delegated | Panicked

  /** The name map after the first `n` fields. */
  ghost predicate NameMap(m: map<string, nat>, fields: seq<Field>, n: nat, opts: Options)
    requires n <= |fields|
  {
    && (forall key :: key in m <==> FieldIndex(fields[..n], key, opts).Some?)
    && (forall key :: key in m ==> FieldIndex(fields[..n], key, opts) == Some(m[key]))
    && |m| <= n
    && (|m| == n <==> Distinct(fields[..n], opts))
  }

  lemma NameMapNext(m: map<string, nat>, fields: seq<Field>, n: nat, opts: Options)
    requires n < |fields| && NameMap(m, fields, n, opts)
    ensures NameMap(m[Norm(opts, fields[n].name) := n], fields, n + 1, opts)
  {
    hide FieldIndex, Norm, Distinct;
    var key := Norm(opts, fields[n].name);
    var m' := m[key := n];
    var a, b := fields[..n], fields[..n + 1];
    assert b == a + [fields[n]];
    forall k: string
      ensures FieldIndex(b, k, opts) == if k == key then Some(n) else FieldIndex(a, k, opts)
    {
      FieldIndexNext(a, fields[n], k, opts);
    }
    MapGrows(m, key, n);
    DistinctNext(a, fields[n], b, opts);
  }

  lemma FieldIndexNext(a: seq<Field>, f: Field, key: string, opts: Options)
    ensures FieldIndex(a + [f], key, opts)
            == if key == Norm(opts, f.name) then Some(|a|) else FieldIndex(a, key, opts)
  {
    assert (a + [f])[..|a|] == a;
  }

  lemma MapGrows(m: map<string, nat>, key: string, v: nat)
    ensures |m[key := v]| == |m| + if key in m then 0 else 1
  {
    assert m[key := v].Keys == m.Keys + {key};
  }

  lemma DistinctNext(a: seq<Field>, f: Field, b: seq<Field>, opts: Options)
    requires b == a + [f]
    ensures Distinct(b, opts) <==> Distinct(a, opts) && FieldIndex(a, Norm(opts, f.name), opts).None?
  {
    hide Norm;
    var key := Norm(opts, f.name);
    if Distinct(b, opts) {
      forall i | 0 <= i < |a|
        ensures Norm(opts, a[i].name) != key
      {
        assert a[i] == b[i] && b[|a|] == f;
      }
      assert forall i :: 0 <= i < |a| ==> a[i] == b[i];
    }
  }

  method BuildNameMap(fields: seq<Field>, opts: Options) returns (m: map<string, nat>)
    ensures NameMap(m, fields, |fields|, opts)
  {
    hide NameMap;
    m := map[];
    NameMapStart(fields, opts);
    for i := 0 to |fields|
      invariant NameMap(m, fields, i, opts)
    {
      NameMapNext(m, fields, i, opts);
      m := m[Norm(opts, fields[i].name) := i];
    }
  }

  lemma NameMapStart(fields: seq<Field>, opts: Options)
    ensures NameMap(map[], fields, 0, opts)
  {
  }

  lemma NameMapDone(m: map<string, nat>, fields: seq<Field>, opts: Options, key: string)
    requires NameMap(m, fields, |fields|, opts)
    ensures |m| == |fields| <==> Distinct(fields, opts)
    ensures FieldIndex(fields, key, opts) == if key in m then Some(m[key]) else None
  {
    assert fields[..|fields|] == fields;
  }

  // ----- what a conversion comes to

  /**
    An array of a type, with its null rows; Arrow's decision; or a panic. The type is the source
    leaf's own when Arrow cannot cast it.
   */
  datatype Verdict = Gives(ty: Ty, nulls: seq<bool>) | Delegates | Panics

  /** The rows that a converted struct keeps: its own, or none without a common field. */
  ghost function StructValid(a: Arr, g: seq<Field>, opts: Options): (valid: seq<bool>)
    requires a.StructArr? && Valid(a)
    ensures |valid| == Len(a)
  {
    if Overlap(a.fields, g, opts) then a.valid else seq(Len(a), i => false)
  }

  function Invert(valid: seq<bool>): (r: seq<bool>)
    ensures |r| == |valid| && forall i :: 0 <= i < |r| ==> r[i] == !valid[i]
  {
    seq(|valid|, i requires 0 <= i < |valid| => !valid[i])
  }

  /** A struct column of the field's type, without a null in a valid row unless it may have one. */
  predicate VerdictFits(v: Verdict, g: Field, valid: seq<bool>) {
    && v.Gives? && v.ty == g.ty && |v.nulls| == |valid|
    && (g.nullable || forall x :: 0 <= x < |valid| && valid[x] ==> !v.nulls[x])
  }

  predicate NoneSet(nulls: seq<bool>) {
    forall x :: 0 <= x < |nulls| ==> !nulls[x]
  }

  /** The verdict on an array, branch by branch as the conversion takes them. */
  ghost function VerdictOf(a: Arr, to: Ty, opts: Options): (v: Verdict)
    requires Valid(a)
    ensures v.Gives? ==> |v.nulls| == Len(a)
    decreases (to)
  {
    match (a, to)
    case (LeafArr(id, cells), Leaf(b)) =>
      var cast := CastLeaf(id, cells, b, opts);
      Gives(TypeOf(cast), Nulls(cast))
    case (DictArr(id, keys32, words), Leaf(b)) =>
      var cast := CastLeaf(id, words, b, opts);
      Gives(TypeOf(cast), Nulls(LeafArr(cast.id, Take(keys32, cast.cells))))
    case (StructArr(f, _, _), Struct(g)) =>
      if !Distinct(f, opts) then Panics
      else if FirstStop(a, g, |g|, opts).Some? then FirstStop(a, g, |g|, opts).value
      else if g == [] || !AllFieldsFit(a, g, opts) then Panics
      else Gives(to, Invert(StructValid(a, g, opts)))
    case (ListArr(_, _, _, values, valid), List(b, nullable)) =>
      var child := VerdictOf(values, b, opts);
      if !child.Gives? then child
      else if child.ty == b && (nullable || NoneSet(child.nulls)) then Gives(to, Invert(valid))
      else Panics
    case (MapArr(_, o, _, keys, vals, entryValid, valid), Map(k, w, nullable, o')) =>
      if o != o' then Delegates
      else
        var key, value := VerdictOf(keys, k, opts), VerdictOf(vals, w, opts);
        if !key.Gives? then key
        else if !value.Gives? then value
        else if MapFits(key, value, to, entryValid) then Gives(to, Invert(valid))
        else Panics
    case _ => Delegates
  }

  /** Keys and entries without nulls, and values of the declared nullability. */
  predicate MapFits(key: Verdict, value: Verdict, to: Ty, entryValid: seq<bool>)
    requires key.Gives? && value.Gives? && to.Map?
  {
    && key.ty == to.key && value.ty == to.value
    && (forall i :: 0 <= i < |entryValid| ==> entryValid[i])
    && NoneSet(key.nulls) && (to.nullable || NoneSet(value.nulls))
  }

  /** The first of `n` target fields whose conversion is no array. */
  ghost function FirstStop(a: Arr, g: seq<Field>, n: nat, opts: Options): (r: Option<Verdict>)
    requires a.StructArr? && Valid(a) && n <= |g|
    ensures r.Some? ==> !r.value.Gives?
    decreases g, n
  {
    if n == 0 then None
    else if FirstStop(a, g, n - 1, opts).Some? then FirstStop(a, g, n - 1, opts)
    else
      var v := FieldVerdict(a, g[n - 1], opts);
      if v.Gives? then None else Some(v)
  }

  /** A target field: the same-named source column converted, or nulls of its own type. */
  ghost function FieldVerdict(a: Arr, g: Field, opts: Options): (v: Verdict)
    requires a.StructArr? && Valid(a)
    ensures v.Gives? ==> |v.nulls| == Len(a)
    decreases g
  {
    match FieldIndex(a.fields, Norm(opts, g.name), opts)
    case Some(j) => VerdictOf(a.cols[j], g.ty, opts)
    case None => Gives(g.ty, seq(Len(a), i => true))
  }

  ghost predicate AllFieldsFit(a: Arr, g: seq<Field>, opts: Options)
    requires a.StructArr? && Valid(a)
    decreases g, |g|
  {
    forall i :: 0 <= i < |g| ==> VerdictFits(FieldVerdict(a, g[i], opts), g[i], StructValid(a, g, opts))
  }

  /** The outcome is the one of the verdict. */
  ghost predicate Decides(v: Verdict, r: Outcome) {
    match v
    case Gives(ty, nulls) => r.Done? && Valid(r.arr) && TypeOf(r.arr) == ty && Nulls(r.arr) == nulls
    case Delegates => r.Delegated?
    case Panics => r.Panicked?
  }

  // ----- when that is an array of the target type

  /**
    No null lands where the target allows none: in a valid row of a field, in a list or in the
    values of a map that are not nullable, or in a key or an entry of a map.
   */
  ghost predicate NullsFit(a: Arr, to: Ty, opts: Options)
    requires Valid(a)
    decreases (to)
  {
    match (a, to)
    case (StructArr(_, _, _), Struct(g)) => forall i :: 0 <= i < |g| ==> FieldNullsFit(a, g, g[i], opts)
    case (ListArr(_, _, _, values, _), List(b, nullable)) =>
      NullsFit(values, b, opts) && (nullable || NeverNull(values, b, opts))
    case (MapArr(_, _, _, keys, vals, entryValid, _), Map(k, w, nullable, _)) =>
      && NullsFit(keys, k, opts) && NullsFit(vals, w, opts)
      && (forall i :: 0 <= i < |entryValid| ==> entryValid[i])
      && NeverNull(keys, k, opts) && (nullable || NeverNull(vals, w, opts))
    case _ => true
  }

  /** No row converts to null. */
  ghost predicate NeverNull(a: Arr, to: Ty, opts: Options)
    requires Valid(a)
  {
    forall x :: 0 <= x < Len(a) ==> ConvertValue(Row(a, x), TypeOf(a), to, opts) != Null
  }

  ghost predicate FieldNullsFit(a: Arr, g: seq<Field>, h: Field, opts: Options)
    requires a.StructArr? && Valid(a)
    decreases h
  {
    match FieldIndex(a.fields, Norm(opts, h.name), opts)
    case Some(j) =>
      && NullsFit(a.cols[j], h.ty, opts)
      && (h.nullable || forall x :: 0 <= x < Len(a) && StructValid(a, g, opts)[x] ==>
            ConvertValue(Row(a.cols[j], x), a.fields[j].ty, h.ty, opts) != Null)
    case None => h.nullable || forall x :: 0 <= x < Len(a) ==> !StructValid(a, g, opts)[x]
  }

  /** For a convertible pair, the null rows are those that convert to null. */
  lemma VerdictNulls(a: Arr, to: Ty, opts: Options, x: nat)
    requires Valid(a) && Convertible(TypeOf(a), to, opts) && VerdictOf(a, to, opts).Gives? && x < Len(a)
    ensures VerdictOf(a, to, opts).nulls[x] <==> ConvertValue(Row(a, x), TypeOf(a), to, opts) == Null
  {
    hide Convertible, FieldIndex, Overlap, FirstStop, AllFieldsFit, Distinct;
    NullRow(a, x);
    if IsNull(a, x) {
      ConvertNull(TypeOf(a), to, opts);
    }
    match (a, to)
    case (LeafArr(id, cells), Leaf(b)) => LeafCan(id, b, opts);
    case (DictArr(id, _, _), Leaf(b)) => DictCan(id, b, opts);
    case _ =>
  }

  lemma LeafCan(a: nat, b: nat, opts: Options)
    ensures Convertible(Leaf(a), Leaf(b), opts) <==> Can(opts, a, b)
  {
  }

  lemma DictCan(a: nat, b: nat, opts: Options)
    ensures Convertible(Dict(a), Leaf(b), opts) <==> Can(opts, a, b)
  {
  }

  /**
    An array of the target type comes out exactly when the types are convertible and no null lands
    where the target allows none; with convertible types the alternative is a panic.
   */
  lemma {:induction false} ConvertsExactlyWhen(a: Arr, to: Ty, opts: Options)
    requires Valid(a)
    ensures var v := VerdictOf(a, to, opts);
            && (v.Gives? && v.ty == to <==> Convertible(TypeOf(a), to, opts) && NullsFit(a, to, opts))
            && (Convertible(TypeOf(a), to, opts) ==> v == Panics || (v.Gives? && v.ty == to))
    decreases (to)
  {
    hide FieldIndex, Norm, Distinct, Overlap, ConvertValue, Row, NeverNull;
    match (a, to)
    case (StructArr(_, _, _), Struct(g)) =>
      forall i | 0 <= i < |g|
        ensures FieldConvertsExactlyWhen(a, g, g[i], opts)
      {
        var j := FieldIndex(a.fields, Norm(opts, g[i].name), opts);
        if j.Some? {
          FieldInRange(a.fields, Norm(opts, g[i].name), opts);
          ConvertsExactlyWhen(a.cols[j.value], g[i].ty, opts);
          FieldFound(a, g, g[i], j.value, opts);
        } else {
          FieldMissing(a, g, g[i], opts);
        }
      }
      StructConvertsExactlyWhen(a, to, opts);
    case (ListArr(_, _, _, values, _), List(b, _)) =>
      ConvertsExactlyWhen(values, b, opts);
      NullsAreNever(values, b, opts);
    case (MapArr(_, _, _, keys, vals, _, _), Map(k, w, _, _)) =>
      ConvertsExactlyWhen(keys, k, opts);
      ConvertsExactlyWhen(vals, w, opts);
      NullsAreNever(keys, k, opts);
      NullsAreNever(vals, w, opts);
    case _ =>
  }

  lemma NullsAreNever(a: Arr, to: Ty, opts: Options)
    requires Valid(a)
    ensures Convertible(TypeOf(a), to, opts) && VerdictOf(a, to, opts).Gives? ==>
              (NoneSet(VerdictOf(a, to, opts).nulls) <==> NeverNull(a, to, opts))
  {
    hide VerdictOf, Convertible, ConvertValue, Row;
    if Convertible(TypeOf(a), to, opts) && VerdictOf(a, to, opts).Gives? {
      forall x | 0 <= x < Len(a)
        ensures VerdictOf(a, to, opts).nulls[x] <==> ConvertValue(Row(a, x), TypeOf(a), to, opts) == Null
      {
        VerdictNulls(a, to, opts, x);
      }
    }
  }

  /** The same for one target field. */
  ghost predicate FieldConvertsExactlyWhen(a: Arr, g: seq<Field>, h: Field, opts: Options)
    requires a.StructArr? && Valid(a)
  {
    var v := FieldVerdict(a, h, opts);
    && (VerdictFits(v, h, StructValid(a, g, opts))
        <==> FieldConvertible(a.fields, h, opts) && FieldNullsFit(a, g, h, opts))
    && (FieldConvertible(a.fields, h, opts) ==> v == Panics || (v.Gives? && v.ty == h.ty))
  }

  lemma FieldFound(a: Arr, g: seq<Field>, h: Field, j: nat, opts: Options)
    requires a.StructArr? && Valid(a) && FieldIndex(a.fields, Norm(opts, h.name), opts) == Some(j) && j < |a.cols|
    requires var v := VerdictOf(a.cols[j], h.ty, opts);
             var c := Convertible(TypeOf(a.cols[j]), h.ty, opts);
             && (v.Gives? && v.ty == h.ty <==> c && NullsFit(a.cols[j], h.ty, opts))
             && (c ==> v == Panics || (v.Gives? && v.ty == h.ty))
    ensures FieldConvertsExactlyWhen(a, g, h, opts)
  {
    hide VerdictOf, Convertible, NullsFit, ConvertValue, Row, FieldIndex, StructValid;
    var v := VerdictOf(a.cols[j], h.ty, opts);
    if Convertible(TypeOf(a.cols[j]), h.ty, opts) && v.Gives? {
      forall x | 0 <= x < Len(a)
        ensures v.nulls[x] <==> ConvertValue(Row(a.cols[j], x), a.fields[j].ty, h.ty, opts) == Null
      {
        VerdictNulls(a.cols[j], h.ty, opts, x);
      }
    }
  }

  lemma FieldMissing(a: Arr, g: seq<Field>, h: Field, opts: Options)
    requires a.StructArr? && Valid(a) && FieldIndex(a.fields, Norm(opts, h.name), opts).None?
    ensures FieldConvertsExactlyWhen(a, g, h, opts)
  {
    hide FieldIndex, StructValid, NullsFit, VerdictOf;
  }

  lemma StructConvertsExactlyWhen(a: Arr, to: Ty, opts: Options)
    requires a.StructArr? && Valid(a) && to.Struct?
    requires forall i :: 0 <= i < |to.fields| ==> FieldConvertsExactlyWhen(a, to.fields, to.fields[i], opts)
    ensures var v := VerdictOf(a, to, opts);
            && (v.Gives? && v.ty == to <==> Convertible(TypeOf(a), to, opts) && NullsFit(a, to, opts))
            && (Convertible(TypeOf(a), to, opts) ==> v == Panics || (v.Gives? && v.ty == to))
  {
    StructVerdict(a, to, opts);
    StructConvertible(a, to, opts);
    hide VerdictOf, Convertible, NullsFit, FieldVerdict, FieldConvertible, FieldNullsFit, FieldIndex, StructValid,
      Distinct;
    var g := to.fields;
    if AllFieldsFit(a, g, opts) {
      NoStop(a, g, |g|, opts);
    }
    if forall i :: 0 <= i < |g| ==> FieldConvertible(a.fields, g[i], opts) {
      StopsPanic(a, g, |g|, opts);
    }
  }

  lemma StructVerdict(a: Arr, to: Ty, opts: Options)
    requires a.StructArr? && Valid(a) && to.Struct?
    ensures VerdictOf(a, to, opts)
            == if !Distinct(a.fields, opts) then Panics
               else if FirstStop(a, to.fields, |to.fields|, opts).Some?
               then FirstStop(a, to.fields, |to.fields|, opts).value
               else if to.fields == [] || !AllFieldsFit(a, to.fields, opts) then Panics
               else Gives(to, Invert(StructValid(a, to.fields, opts)))
  {
  }

  lemma StructConvertible(a: Arr, to: Ty, opts: Options)
    requires a.StructArr? && Valid(a) && to.Struct?
    ensures Convertible(TypeOf(a), to, opts) <==>
              && Distinct(a.fields, opts) && to.fields != []
              && forall i :: 0 <= i < |to.fields| ==> FieldConvertible(a.fields, to.fields[i], opts)
    ensures NullsFit(a, to, opts) <==>
              forall i :: 0 <= i < |to.fields| ==> FieldNullsFit(a, to.fields, to.fields[i], opts)
  {
  }

  lemma {:induction false} NoStop(a: Arr, g: seq<Field>, n: nat, opts: Options)
    requires a.StructArr? && Valid(a) && n <= |g| && AllFieldsFit(a, g, opts)
    ensures FirstStop(a, g, n, opts).None?
    decreases n
  {
    hide FieldVerdict, StructValid;
    if n > 0 {
      NoStop(a, g, n - 1, opts);
    }
  }

  lemma {:induction false} StopsPanic(a: Arr, g: seq<Field>, n: nat, opts: Options)
    requires a.StructArr? && Valid(a) && n <= |g|
    requires forall i :: 0 <= i < |g| ==> FieldVerdict(a, g[i], opts) == Panics || FieldVerdict(a, g[i], opts).Gives?
    ensures FirstStop(a, g, n, opts) == None || FirstStop(a, g, n, opts) == Some(Panics)
    decreases n
  {
    hide FieldVerdict;
    if n > 0 {
      StopsPanic(a, g, n - 1, opts);
    }
  }

  lemma {:induction false} StopStays(a: Arr, g: seq<Field>, n: nat, m: nat, opts: Options)
    requires a.StructArr? && Valid(a) && n <= m <= |g| && FirstStop(a, g, n, opts).Some?
    ensures FirstStop(a, g, m, opts) == FirstStop(a, g, n, opts)
    decreases m
  {
    hide FieldVerdict;
    if n < m {
      StopStays(a, g, n, m - 1, opts);
    }
  }

  // ----- the conversion in code

  /** One target column of a struct: the same-named source column converted, or nulls. */
  method ConvertColumn(a: Arr, g: Field, opts: Options, names: map<string, nat>) returns (r: Outcome)
    requires a.StructArr? && Valid(a) && NameMap(names, a.fields, |a.fields|, opts)
    ensures Decides(FieldVerdict(a, g, opts), r)
    ensures r.Done? ==> Valid(r.arr) && Len(r.arr) == Len(a) && NullSafe(r.arr)
    ensures r.Done? && FieldConvertible(a.fields, g, opts) ==> ColumnDone(a, g, opts, r.arr)
    ensures r.Done? && Distinct(a.fields, opts) ==> LaidField(a.fields, a.cols, g, r.arr, opts)
    decreases g, 0
  {
    hide Converted, ColumnDone, FieldIndex, NameMap, NullArr, Row, VerdictOf, Convertible, NullSafe, Laid, LaidField,
      Distinct;
    var key := Norm(opts, g.name);
    NameMapDone(names, a.fields, opts, key);
    if key in names {
      var from := names[key];
      FieldInRange(a.fields, key, opts);
      r := ConvertArray(a.cols[from], g.ty, opts);
      if r.Done? && FieldConvertible(a.fields, g, opts) {
        FoundColumn(a, g, opts, from, r.arr);
      }
      if r.Done? && Distinct(a.fields, opts) {
        LaidFound(a, g, opts, from, r.arr);
      }
    } else {
      MissingColumn(a, g, opts);
      LaidMissing(a, g, opts, NullArr(g.ty, Len(a)));
      NullArrSafe(g.ty, Len(a));
      r := Done(NullArr(g.ty, Len(a)));
    }
  }

  /**
    Structs by field name: missing fields are null; with no field in common every row is. The
    constructor takes the length from the first column and panics when there is none, when a
    column has another type, and when one that is not nullable has a null in a valid row.
   */
  method ConvertStruct(a: Arr, to: Ty, opts: Options) returns (r: Outcome)
    requires a.StructArr? && Valid(a) && to.Struct?
    ensures Decides(VerdictOf(a, to, opts), r)
    ensures r.Done? ==> Valid(r.arr) && Len(r.arr) == Len(a) && NullSafe(r.arr)
    ensures r.Done? && Convertible(TypeOf(a), to, opts) ==> Converted(a, r.arr, to, opts)
    ensures r.Done? ==> Laid(a, r.arr, to, opts)
    ensures var f, g, named := a.fields, to.fields, (x: string) => if opts.caseSensitive then x else (opts.lower)(x);
            && ((exists j, k :: 0 <= j < k < |f| && named(f[j].name) == named(f[k].name)) || g == [] ==> r.Panicked?)
            && (r.Done? ==>
                  && r.arr.StructArr? && |r.arr.cols| == |g|
                  && forall i :: 0 <= i < |g| ==>
                       && (forall j :: 0 <= j < |f| && named(f[j].name) == named(g[i].name) ==>
                             Laid(a.cols[j], r.arr.cols[i], g[i].ty, opts))
                       && ((forall j :: 0 <= j < |f| ==> named(f[j].name) != named(g[i].name)) ==>
                             Valid(r.arr.cols[i]) && forall x :: 0 <= x < Len(r.arr.cols[i]) ==>
                               Row(r.arr.cols[i], x) == Null)
                       && (g[i].nullable
                           || forall x :: 0 <= x < |r.arr.valid| && r.arr.valid[x] ==> Row(r.arr.cols[i], x) != Null))
    decreases (to), 0
  {
    hide Converted, FieldIndex, NameMap, VerdictOf, Convertible, Columns, FirstStop, Found, AllFieldsFit, Distinct,
      NullSafe, ColumnFits, FieldVerdict, FieldConvertible, ColumnDone, StructValid;
    var overlap := false;
    var names := BuildNameMap(a.fields, opts);
    NameMapDone(names, a.fields, opts, "");
    StructVerdict(a, to, opts);
    DistinctIs(a.fields, opts);
    if |names| != |a.fields| {
      return Panicked;
    }
    var cols: seq<Arr> := [];
    ColumnsStart(a, to, opts);
    for i := 0 to |to.fields|
      invariant |cols| == i && FirstStop(a, to.fields, i, opts).None?
      invariant Columns(a, to, opts, cols)
      invariant overlap == Found(a.fields, to.fields, i, opts)
    {
      var col := ConvertColumn(a, to.fields[i], opts, names);
      NextStop(a, to.fields, i, opts);
      if !col.Done? {
        StopStays(a, to.fields, i + 1, |to.fields|, opts);
        return col;
      }
      NameMapDone(names, a.fields, opts, Norm(opts, to.fields[i].name));
      overlap := overlap || Norm(opts, to.fields[i].name) in names;
      ColumnsNext(a, to, opts, cols, col.arr);
      cols := cols + [col.arr];
    }
    var valid := if overlap then a.valid else seq(Len(a), i => false);
    ColumnsShape(a, to, opts, cols, valid);
    ColumnsFit(a, to, opts, cols, valid);
    if to.fields == [] || exists k :: 0 <= k < |cols| && !ColumnFits(cols[k], to.fields[k], valid) {
      return Panicked;
    }
    StructFinished(a, to, opts, cols, valid);
    FittingRows(cols, to.fields, valid);
    r := Done(StructArr(to.fields, cols, valid));
  }

  lemma FittingRows(cols: seq<Arr>, g: seq<Field>, valid: seq<bool>)
    requires |cols| == |g| && forall k :: 0 <= k < |cols| ==> Valid(cols[k]) && Len(cols[k]) == |valid|
    requires forall k :: 0 <= k < |cols| ==> ColumnFits(cols[k], g[k], valid)
    ensures forall k :: 0 <= k < |cols| ==>
              g[k].nullable || forall x :: 0 <= x < |valid| && valid[x] ==> Row(cols[k], x) != Null
  {
    hide Valid, Row;
    forall k, x | 0 <= k < |cols| && 0 <= x < |valid|
      ensures Row(cols[k], x) == Null <==> IsNull(cols[k], x)
    {
      NullRow(cols[k], x);
    }
  }

  /** The columns of the first target fields, in order. */
  ghost predicate Columns(a: Arr, to: Ty, opts: Options, cols: seq<Arr>)
    requires a.StructArr? && Valid(a) && to.Struct? && |cols| <= |to.fields|
  {
    forall k :: 0 <= k < |cols| ==> ColumnStands(a, to.fields[k], opts, cols[k])
  }

  ghost predicate ColumnStands(a: Arr, g: Field, opts: Options, col: Arr)
    requires a.StructArr? && Valid(a)
  {
    && Valid(col) && Len(col) == Len(a) && NullSafe(col)
    && FieldVerdict(a, g, opts) == Gives(TypeOf(col), Nulls(col))
    && (FieldConvertible(a.fields, g, opts) ==> ColumnDone(a, g, opts, col))
    && (Distinct(a.fields, opts) ==> LaidField(a.fields, a.cols, g, col, opts))
  }

  /** Some of the first `n` target fields is a source field too. */
  ghost predicate Found(from: seq<Field>, to: seq<Field>, n: nat, opts: Options)
    requires n <= |to|
  {
    exists k :: 0 <= k < n && FieldIndex(from, Norm(opts, to[k].name), opts).Some?
  }

  lemma ColumnsStart(a: Arr, to: Ty, opts: Options)
    requires a.StructArr? && Valid(a) && to.Struct?
    ensures Columns(a, to, opts, []) && !Found(a.fields, to.fields, 0, opts)
    ensures FirstStop(a, to.fields, 0, opts).None?
  {
  }

  lemma NextStop(a: Arr, g: seq<Field>, n: nat, opts: Options)
    requires a.StructArr? && Valid(a) && n < |g| && FirstStop(a, g, n, opts).None?
    ensures var v := FieldVerdict(a, g[n], opts);
            FirstStop(a, g, n + 1, opts) == if v.Gives? then None else Some(v)
  {
    hide FieldVerdict;
  }

  lemma ColumnsNext(a: Arr, to: Ty, opts: Options, cols: seq<Arr>, col: Arr)
    requires a.StructArr? && Valid(a) && to.Struct? && |cols| < |to.fields| && Columns(a, to, opts, cols)
    requires Valid(col) && Len(col) == Len(a) && NullSafe(col)
    requires Decides(FieldVerdict(a, to.fields[|cols|], opts), Done(col))
    requires FieldConvertible(a.fields, to.fields[|cols|], opts) ==> ColumnDone(a, to.fields[|cols|], opts, col)
    requires Distinct(a.fields, opts) ==> LaidField(a.fields, a.cols, to.fields[|cols|], col, opts)
    ensures Columns(a, to, opts, cols + [col])
    ensures var n := |cols|;
            Found(a.fields, to.fields, n + 1, opts) <==>
              Found(a.fields, to.fields, n, opts) || FieldIndex(a.fields, Norm(opts, to.fields[n].name), opts).Some?
  {
    hide FieldVerdict, FieldConvertible, ColumnDone, FieldIndex, Valid, Norm, NullSafe, Nulls, LaidField, Distinct;
    assert ColumnStands(a, to.fields[|cols|], opts, col);
    hide ColumnStands;
  }

  lemma ColumnsShape(a: Arr, to: Ty, opts: Options, cols: seq<Arr>, valid: seq<bool>)
    requires a.StructArr? && Valid(a) && to.Struct? && |cols| == |to.fields| && Columns(a, to, opts, cols)
    requires valid == if Found(a.fields, to.fields, |to.fields|, opts) then a.valid else seq(Len(a), i => false)
    ensures valid == StructValid(a, to.fields, opts)
    ensures forall k :: 0 <= k < |cols| ==> Valid(cols[k]) && Len(cols[k]) == |valid|
  {
    hide FieldVerdict, FieldConvertible, ColumnDone, FieldIndex, NullSafe, LaidField, Distinct;
    assert Found(a.fields, to.fields, |to.fields|, opts) <==> Overlap(a.fields, to.fields, opts);
  }

  lemma ColumnsFit(a: Arr, to: Ty, opts: Options, cols: seq<Arr>, valid: seq<bool>)
    requires a.StructArr? && Valid(a) && to.Struct? && |cols| == |to.fields| && Columns(a, to, opts, cols)
    requires valid == StructValid(a, to.fields, opts)
    requires forall k :: 0 <= k < |cols| ==> Valid(cols[k]) && Len(cols[k]) == |valid|
    ensures AllFieldsFit(a, to.fields, opts) <==>
              forall k :: 0 <= k < |cols| ==> ColumnFits(cols[k], to.fields[k], valid)
  {
    hide FieldVerdict, FieldConvertible, ColumnDone, Valid, NullSafe, StructValid, LaidField, Distinct;
    forall k | 0 <= k < |cols|
      ensures ColumnFits(cols[k], to.fields[k], valid)
              <==> VerdictFits(FieldVerdict(a, to.fields[k], opts), to.fields[k], valid)
    {
      assert ColumnStands(a, to.fields[k], opts, cols[k]);
      FitsAgree(cols[k], to.fields[k], valid);
    }
    hide ColumnFits, VerdictFits;
  }

  lemma FitsAgree(col: Arr, g: Field, valid: seq<bool>)
    requires Valid(col) && Len(col) == |valid|
    ensures ColumnFits(col, g, valid) <==> VerdictFits(Gives(TypeOf(col), Nulls(col)), g, valid)
  {
    hide Valid;
    assert forall x :: 0 <= x < Len(col) ==> Nulls(col)[x] == IsNull(col, x);
  }

  lemma StructFinished(a: Arr, to: Ty, opts: Options, cols: seq<Arr>, valid: seq<bool>)
    requires a.StructArr? && Valid(a) && to.Struct? && |cols| == |to.fields| && Columns(a, to, opts, cols)
    requires valid == StructValid(a, to.fields, opts)
    requires forall k :: 0 <= k < |cols| ==> Valid(cols[k]) && Len(cols[k]) == |valid|
    requires forall k :: 0 <= k < |cols| ==> ColumnFits(cols[k], to.fields[k], valid)
    ensures var b := StructArr(to.fields, cols, valid);
            && Valid(b) && Len(b) == Len(a) && NullSafe(b) && Nulls(b) == Invert(valid)
            && (Convertible(TypeOf(a), to, opts) ==> Converted(a, b, to, opts))
            && (Distinct(a.fields, opts) ==> Laid(a, b, to, opts))
  {
    hide FieldVerdict, FieldConvertible, ColumnDone, FieldIndex, Converted, Overlap, Laid, LaidField, Distinct;
    assert forall k :: 0 <= k < |cols| ==> ColumnStands(a, to.fields[k], opts, cols[k]);
    if Distinct(a.fields, opts) {
      LaidStruct(a, to, opts, cols, valid);
    }
    if Convertible(TypeOf(a), to, opts) {
      StructConverted(a, to, opts, cols, valid);
    }
  }

  lemma FieldInRange(fields: seq<Field>, key: string, opts: Options)
    ensures FieldIndex(fields, key, opts).Some? ==> FieldIndex(fields, key, opts).value < |fields|
  {
  }

  /**
    `parquet_convert_array`. The outcome is the one of the verdict. For convertible types, with any
    nesting of structs, lists and maps, an array that comes out is of the target type and of the
    same length, each of its rows is the source row converted by field name, and it holds no null
    where the type allows none.
   */
  method ConvertArray(a: Arr, to: Ty, opts: Options) returns (r: Outcome)
    requires Valid(a)
    ensures Decides(VerdictOf(a, to, opts), r)
    ensures r.Done? ==> Valid(r.arr) && Len(r.arr) == Len(a) && NullSafe(r.arr)
    ensures r.Done? && Convertible(TypeOf(a), to, opts) ==> Converted(a, r.arr, to, opts)
    ensures r.Done? ==> Laid(a, r.arr, to, opts)
    ensures (match a
             case LeafArr(_, _) => !to.Leaf?
             case DictArr(_, _, _) => !to.Leaf?
             case StructArr(_, _, _) => !to.Struct?
             case ListArr(_, _, _, _, _) => !to.List?
             case MapArr(_, ordered, _, _, _, _, _) => !to.Map? || to.ordered != ordered)
            ==> r.Delegated?
    ensures (a.LeafArr? || a.DictArr?) && to.Leaf? ==> r.Done?
    decreases (to), 1
  {
    hide Converted, Row, ConvertValue, Laid;
    match (a, to)
    case (DictArr(id, keys32, words), Leaf(_)) =>
      var cast := CastLeaf(id, words, to.id, opts);
      r := Done(LeafArr(cast.id, Take(keys32, cast.cells)));
      LaidDict(a, to, opts, r.arr);
      if Can(opts, id, to.id) {
        DictConverted(a, to, opts, r.arr);
      }
    case (LeafArr(id, cells), Leaf(_)) =>
      r := Done(CastLeaf(id, cells, to.id, opts));
      LaidLeaf(a, to, opts, r.arr);
      if Can(opts, id, to.id) {
        LeafConverted(a, to, opts, r.arr);
      }
    case (StructArr(_, _, _), Struct(_)) =>
      r := ConvertStruct(a, to, opts);
    case (ListArr(_, _, _, _, _), List(_, _)) =>
      r := ConvertList(a, to, opts);
    case (MapArr(_, _, _, _, _, _, _), Map(_, _, _, _)) =>
      r := ConvertMap(a, to, opts);
    case _ =>
      r := Delegated;
  }

  /** Lists keep their offsets; the constructor panics on another element type and on a stray null. */
  method ConvertList(a: Arr, to: Ty, opts: Options) returns (r: Outcome)
    requires a.ListArr? && Valid(a) && to.List?
    ensures Decides(VerdictOf(a, to, opts), r)
    ensures r.Done? ==> Valid(r.arr) && Len(r.arr) == Len(a) && NullSafe(r.arr)
    ensures r.Done? && Convertible(TypeOf(a), to, opts) ==> Converted(a, r.arr, to, opts)
    ensures r.Done? ==> Laid(a, r.arr, to, opts)
    ensures r.Done? ==>
              && r.arr.ListArr?
              && (to.nullable || forall x :: 0 <= x < Len(r.arr.values) ==> Row(r.arr.values, x) != Null)
    decreases (to), 0
  {
    hide Converted, Row, ConvertValue, Laid;
    var child := ConvertArray(a.values, to.elem, opts);
    if !child.Done? {
      return child;
    }
    NoNullsAgree(child.arr);
    if TypeOf(child.arr) != to.elem || (!to.nullable && !NoNulls(child.arr)) {
      return Panicked;
    }
    if Convertible(TypeOf(a), to, opts) {
      ListConverted(a, to, opts, child.arr);
    }
    r := Done(ListArr(to.elem, to.nullable, a.offsets, child.arr, a.valid));
    LaidList(a, to, opts, child.arr);
    NoNullRows(child.arr);
  }

  lemma LaidList(a: Arr, to: Ty, opts: Options, values: Arr)
    requires a.ListArr? && to.List? && Laid(a.values, values, to.elem, opts)
    ensures Laid(a, ListArr(to.elem, to.nullable, a.offsets, values, a.valid), to, opts)
  {
  }

  lemma LaidMap(a: Arr, to: Ty, opts: Options, keys: Arr, vals: Arr)
    requires a.MapArr? && to.Map? && Laid(a.keys, keys, to.key, opts) && Laid(a.vals, vals, to.value, opts)
    ensures Laid(a, MapArr(to.nullable, to.ordered, a.offsets, keys, vals, a.entryValid, a.valid), to, opts)
  {
  }

  lemma LaidLeaf(a: Arr, to: Ty, opts: Options, b: Arr)
    requires a.LeafArr? && to.Leaf? && b == CastLeaf(a.id, a.cells, to.id, opts)
    ensures Laid(a, b, to, opts)
  {
  }

  lemma LaidDict(a: Arr, to: Ty, opts: Options, b: Arr)
    requires a.DictArr? && Valid(a) && to.Leaf?
    requires var cast := CastLeaf(a.id, a.words, to.id, opts); b == LeafArr(cast.id, Take(a.keys32, cast.cells))
    ensures Laid(a, b, to, opts)
  {
  }

  lemma NoNullRows(a: Arr)
    requires Valid(a)
    ensures NoNulls(a) ==> forall x :: 0 <= x < Len(a) ==> Row(a, x) != Null
  {
    forall x | 0 <= x < Len(a)
      ensures Row(a, x) == Null <==> IsNull(a, x)
    {
      NullRow(a, x);
    }
    hide Row, IsNull;
  }

  lemma NoNullsAgree(a: Arr)
    requires Valid(a)
    ensures NoNulls(a) <==> NoneSet(Nulls(a))
  {
    assert forall i :: 0 <= i < Len(a) ==> Nulls(a)[i] == IsNull(a, i);
  }

  /**
    Maps keep their offsets and entry mask; the constructors panic on other types, on a null key or
    entry, and on a null value that is not allowed.
   */
  method ConvertMap(a: Arr, to: Ty, opts: Options) returns (r: Outcome)
    requires a.MapArr? && Valid(a) && to.Map?
    ensures Decides(VerdictOf(a, to, opts), r)
    ensures r.Done? ==> Valid(r.arr) && Len(r.arr) == Len(a) && NullSafe(r.arr)
    ensures r.Done? && Convertible(TypeOf(a), to, opts) ==> Converted(a, r.arr, to, opts)
    ensures r.Done? ==> Laid(a, r.arr, to, opts)
    ensures r.Done? ==>
              && r.arr.MapArr? && (forall x :: 0 <= x < |r.arr.entryValid| ==> r.arr.entryValid[x])
              && (forall x :: 0 <= x < Len(r.arr.keys) ==> Row(r.arr.keys, x) != Null)
              && (to.nullable || forall x :: 0 <= x < Len(r.arr.vals) ==> Row(r.arr.vals, x) != Null)
    ensures a.ordered != to.ordered ==> r.Delegated?
    decreases (to), 0
  {
    MapVerdict(a, to, opts);
    MapParts(a);
    hide Converted, VerdictOf, Convertible, Valid, NullSafe, Nulls, Laid, MapFits;
    if a.ordered != to.ordered {
      return Delegated;
    }
    var ks := ConvertArray(a.keys, to.key, opts);
    if !ks.Done? {
      return ks;
    }
    var vs := ConvertArray(a.vals, to.value, opts);
    if !vs.Done? {
      return vs;
    }
    r := FinishMap(a, to, opts, ks.arr, vs.arr);
  }

  /** The constructors of the entries and of the map. */
  method FinishMap(a: Arr, to: Ty, opts: Options, keys: Arr, vals: Arr) returns (r: Outcome)
    requires a.MapArr? && Valid(a) && to.Map? && a.ordered == to.ordered
    requires Valid(keys) && Len(keys) == Len(a.keys) && NullSafe(keys) && Laid(a.keys, keys, to.key, opts)
    requires Valid(vals) && Len(vals) == Len(a.vals) && NullSafe(vals) && Laid(a.vals, vals, to.value, opts)
    requires VerdictOf(a.keys, to.key, opts) == Gives(TypeOf(keys), Nulls(keys))
    requires VerdictOf(a.vals, to.value, opts) == Gives(TypeOf(vals), Nulls(vals))
    requires Convertible(TypeOf(a), to, opts) ==>
               Converted(a.keys, keys, to.key, opts) && Converted(a.vals, vals, to.value, opts)
    ensures Decides(VerdictOf(a, to, opts), r)
    ensures r.Done? ==> Valid(r.arr) && Len(r.arr) == Len(a) && NullSafe(r.arr)
    ensures r.Done? && Convertible(TypeOf(a), to, opts) ==> Converted(a, r.arr, to, opts)
    ensures r.Done? ==> Laid(a, r.arr, to, opts)
    ensures r.Done? ==>
              && r.arr.MapArr? && (forall x :: 0 <= x < |r.arr.entryValid| ==> r.arr.entryValid[x])
              && (forall x :: 0 <= x < Len(r.arr.keys) ==> Row(r.arr.keys, x) != Null)
              && (to.nullable || forall x :: 0 <= x < Len(r.arr.vals) ==> Row(r.arr.vals, x) != Null)
  {
    MapVerdict(a, to, opts);
    MapParts(a);
    hide Converted, VerdictOf, Convertible, Valid, NullSafe, Nulls, NoNulls, NoneSet, Laid;
    NoNullsAgree(keys);
    NoNullsAgree(vals);
    if TypeOf(keys) != to.key || TypeOf(vals) != to.value
       || !NoNulls(keys) || (!to.nullable && !NoNulls(vals))
       || exists k :: 0 <= k < |a.entryValid| && !a.entryValid[k] {
      return Panicked;
    }
    if Convertible(TypeOf(a), to, opts) {
      MapConverted(a, to, opts, keys, vals);
    }
    MapFinished(a, to, keys, vals);
    LaidMap(a, to, opts, keys, vals);
    NoNullRows(keys);
    NoNullRows(vals);
    r := Done(MapArr(to.nullable, to.ordered, a.offsets, keys, vals, a.entryValid, a.valid));
  }

  lemma MapVerdict(a: Arr, to: Ty, opts: Options)
    requires a.MapArr? && Valid(a) && to.Map?
    ensures VerdictOf(a, to, opts)
            == if a.ordered != to.ordered then Delegates
               else
                 var key, value := VerdictOf(a.keys, to.key, opts), VerdictOf(a.vals, to.value, opts);
                 if !key.Gives? then key
                 else if !value.Gives? then value
                 else if MapFits(key, value, to, a.entryValid) then Gives(to, Invert(a.valid))
                 else Panics
    ensures Convertible(TypeOf(a), to, opts) ==>
              Convertible(TypeOf(a.keys), to.key, opts) && Convertible(TypeOf(a.vals), to.value, opts)
  {
  }

  lemma MapFinished(a: Arr, to: Ty, keys: Arr, vals: Arr)
    requires a.MapArr? && Valid(a) && to.Map?
    requires Valid(keys) && Valid(vals) && Len(keys) == Len(a.keys) && Len(vals) == Len(a.vals)
    requires NullSafe(keys) && NullSafe(vals) && TypeOf(keys) == to.key && TypeOf(vals) == to.value
    requires NoNulls(keys) && (to.nullable || NoNulls(vals)) && forall k :: 0 <= k < |a.entryValid| ==> a.entryValid[k]
    ensures var b := MapArr(to.nullable, to.ordered, a.offsets, keys, vals, a.entryValid, a.valid);
            Valid(b) && Len(b) == Len(a) && TypeOf(b) == to && NullSafe(b) && Nulls(b) == Invert(a.valid)
  {
  }

  /**
    `spark_parquet_convert` on an array. It gives an array of the target type exactly when the types
    are convertible and no null lands where the target allows none; that array holds the rows
    converted one by one. With convertible types the alternative is a panic.
   */
  method SparkParquetConvert(a: Arr, to: Ty, opts: Options) returns (r: Outcome)
    requires Valid(a)
    ensures r.Done? && TypeOf(r.arr) == to <==> Convertible(TypeOf(a), to, opts) && NullsFit(a, to, opts)
    ensures r.Done? && TypeOf(r.arr) == to ==> Converted(a, r.arr, to, opts) && NullSafe(r.arr)
    ensures r.Done? ==> Laid(a, r.arr, to, opts)
    ensures Convertible(TypeOf(a), to, opts) && !NullsFit(a, to, opts) ==> r.Panicked?
  {
    hide VerdictOf, Convertible, NullsFit, Converted, NullSafe, Laid;
    r := ConvertArray(a, to, opts);
    ConvertsExactlyWhen(a, to, opts);
  }

  /** A leaf that Arrow can cast is cast; any other is returned as it is. */
  function CastLeaf(id: nat, cells: seq<Option<int>>, to: nat, opts: Options): (r: Arr)
    ensures r.LeafArr? && |r.cells| == |cells|
  {
    if Can(opts, id, to) then LeafArr(to, CastAll(cells, id, to, opts)) else LeafArr(id, cells)
  }
}
