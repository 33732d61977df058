/**
  Adapting a Parquet file to the required schema: file columns are matched to required fields
  by name, projected, converted, and filled in where the file lacks them.
 */
module SchemaAdapter {
  import opened Columnar
  import opened Wrappers

  /** The first field with the given normalized name. */
  function FindFirst(fields: seq<Field>, key: string, opts: Options): (r: Option<nat>)
    ensures r.Some? ==>
              && r.value < |fields| && Norm(opts, fields[r.value].name) == key
              && forall i :: 0 <= i < r.value ==> Norm(opts, fields[i].name) != key
    ensures r.None? ==> forall i :: 0 <= i < |fields| ==> Norm(opts, fields[i].name) != key
  {
    if fields == [] then None
    else if Norm(opts, fields[0].name) == key then Some(0)
    else match FindFirst(fields[1..], key, opts)
      case None => None
      case Some(i) => Some(i + 1)
  }

  function Key(fields: seq<Field>, i: nat, opts: Options): string
    requires i < |fields|
  {
    Norm(opts, fields[i].name)
  }

  /** The required field that file field `f` is read into: the first of its name. */
  function TargetOf(required: seq<Field>, file: seq<Field>, f: nat, opts: Options): (r: Option<nat>)
    requires f < |file|
    ensures r.Some? ==> r.value < |required|
  {
    FindFirst(required, Key(file, f, opts), opts)
  }

  /** `map_column_index`: the first file column of the required field's name. */
  function MapColumnIndex(required: seq<Field>, i: nat, file: seq<Field>, opts: Options): Option<nat>
    requires i < |required|
  {
    FindFirst(file, Key(required, i, opts), opts)
  }

  // ----- map_schema

  /** The projection of the first `n` file fields: those that have a target, in order. */
  ghost predicate Projected(required: seq<Field>, file: seq<Field>, n: nat, projection: seq<nat>, opts: Options)
    requires n <= |file|
  {
    && (forall k :: 0 <= k < |projection| ==> projection[k] < n && TargetOf(required, file, projection[k], opts).Some?)
    && (forall j, k :: 0 <= j < k < |projection| ==> projection[j] < projection[k])
    && (forall f :: 0 <= f < n && TargetOf(required, file, f, opts).Some? ==> f in projection)
  }

  /** Each required field is mapped to the last projected column whose target it is. */
  ghost predicate Mapped(
      required: seq<Field>, file: seq<Field>, projection: seq<nat>, mappings: seq<Option<nat>>, opts: Options)
    requires forall k :: 0 <= k < |projection| ==> projection[k] < |file|
  {
    && |mappings| == |required|
    && (forall t :: 0 <= t < |mappings| && mappings[t].Some? ==> mappings[t].value < |projection|)
    && (forall t :: 0 <= t < |mappings| && mappings[t].Some? ==>
          TargetOf(required, file, projection[mappings[t].value], opts) == Some(t))
    && (forall k :: 0 <= k < |projection| ==>
          match TargetOf(required, file, projection[k], opts)
          case None => true
          case Some(t) => mappings[t].Some? && k <= mappings[t].value)
  }

  /**
    `map_schema`. A required field is read from a file column exactly when that is the last one of
    the field's name and no earlier required field has the name; the columns that have the name of
    some required field are projected, in order.
   */
  method MapSchema(required: seq<Field>, file: seq<Field>, opts: Options)
    returns (projection: seq<nat>, mappings: seq<Option<nat>>)
    ensures Projected(required, file, |file|, projection, opts)
    ensures Mapped(required, file, projection, mappings, opts)
    ensures |mappings| == |required|
    ensures forall t :: 0 <= t < |mappings| && mappings[t].Some? ==> mappings[t].value < |projection|
    ensures ReadsByName(required, file, projection, mappings, Naming(opts))
    ensures ProjectsByName(required, file, projection, Naming(opts))
  {
    hide Projected, Mapped, ReadsByName, ProjectsByName;
    projection, mappings := MapColumns(required, file, opts);
    ProjectedShape(required, file, projection, mappings, opts);
    MappedByName(required, file, projection, mappings, opts);
    ProjectedByName(required, file, projection, opts);
  }

  /** Field `t` is read from the last file column of its name, if it is the first required field of it. */
  ghost predicate ReadsByName(
      required: seq<Field>, file: seq<Field>, projection: seq<nat>, mappings: seq<Option<nat>>,
      named: string -> string)
    requires |mappings| == |required|
    requires forall t :: 0 <= t < |mappings| && mappings[t].Some? ==> mappings[t].value < |projection|
  {
    forall t, f :: 0 <= t < |required| && 0 <= f < |file| ==>
      (ReadFrom(projection, mappings, t) == Some(f) <==> Feeds(required, file, f, t, named))
  }

  /** File column `f` is the last and required field `t` the first of a common name. */
  ghost predicate Feeds(required: seq<Field>, file: seq<Field>, f: nat, t: nat, named: string -> string)
    requires f < |file| && t < |required|
  {
    && named(file[f].name) == named(required[t].name)
    && (forall u :: 0 <= u < t ==> named(required[u].name) != named(required[t].name))
    && forall g :: f < g < |file| ==> named(file[g].name) != named(file[f].name)
  }

  /** How names are compared: as they are, or lower-cased. */
  function Naming(opts: Options): (named: string -> string)
    ensures forall x :: named(x) == if opts.caseSensitive then x else (opts.lower)(x)
  {
    if opts.caseSensitive then x => x else opts.lower
  }

  /** The file columns that have the name of a required field, in order. */
  ghost predicate ProjectsByName(
      required: seq<Field>, file: seq<Field>, projection: seq<nat>, named: string -> string) {
    && (forall j, k :: 0 <= j < k < |projection| ==> projection[j] < projection[k])
    && forall f :: 0 <= f < |file| ==>
         (f in projection <==> exists t :: 0 <= t < |required| && named(file[f].name) == named(required[t].name))
  }

  lemma ProjectedShape(
      required: seq<Field>, file: seq<Field>, projection: seq<nat>, mappings: seq<Option<nat>>, opts: Options)
    requires Projected(required, file, |file|, projection, opts) && Mapped(required, file, projection, mappings, opts)
    ensures |mappings| == |required|
    ensures forall t :: 0 <= t < |mappings| && mappings[t].Some? ==> mappings[t].value < |projection|
  {
  }

  /** The loop of `MapSchema` over the file's fields. */
  method MapColumns(required: seq<Field>, file: seq<Field>, opts: Options)
    returns (projection: seq<nat>, mappings: seq<Option<nat>>)
    ensures Projected(required, file, |file|, projection, opts)
    ensures Mapped(required, file, projection, mappings, opts)
  {
    hide TargetOf;
    projection := [];
    mappings := seq(|required|, i => None);
    for f := 0 to |file|
      invariant Projected(required, file, f, projection, opts)
      invariant Mapped(required, file, projection, mappings, opts)
    {
      var target := TargetOf(required, file, f, opts);
      if target.Some? {
        ProjectedNext(required, file, f, projection, opts);
        MappedNext(required, file, f, projection, mappings, opts);
        mappings := mappings[target.value := Some(|projection|)];
        projection := projection + [f];
      }
    }
  }

  lemma ProjectedNext(required: seq<Field>, file: seq<Field>, f: nat, projection: seq<nat>, opts: Options)
    requires f < |file| && Projected(required, file, f, projection, opts) && TargetOf(required, file, f, opts).Some?
    ensures Projected(required, file, f + 1, projection + [f], opts)
  {
    hide TargetOf;
    var p := projection + [f];
    forall g | 0 <= g < f + 1 && TargetOf(required, file, g, opts).Some?
      ensures g in p
    {
      if g == f {
        assert p[|projection|] == f;
      }
    }
  }

  lemma MappedNext(
      required: seq<Field>, file: seq<Field>, f: nat, projection: seq<nat>, mappings: seq<Option<nat>>,
      opts: Options)
    requires f < |file| && (forall k :: 0 <= k < |projection| ==> projection[k] < |file|)
    requires Mapped(required, file, projection, mappings, opts) && TargetOf(required, file, f, opts).Some?
    ensures var t := TargetOf(required, file, f, opts).value;
            Mapped(required, file, projection + [f], mappings[t := Some(|projection|)], opts)
  {
    hide TargetOf;
    var t := TargetOf(required, file, f, opts).value;
    var p, m := projection + [f], mappings[t := Some(|projection|)];
    forall k | 0 <= k < |p|
      ensures match TargetOf(required, file, p[k], opts)
              case None => true
              case Some(u) => m[u].Some? && k <= m[u].value
    {
      if k < |projection| {
        assert p[k] == projection[k];
      }
    }
    forall u | 0 <= u < |m| && m[u].Some?
      ensures m[u].value < |p| && TargetOf(required, file, p[m[u].value], opts) == Some(u)
    {
      if u != t {
        assert p[m[u].value] == projection[m[u].value];
      }
    }
  }

  // ----- agreement with map_column_index

  /** The file column that required field `t` is read from. */
  ghost function ReadFrom(projection: seq<nat>, mappings: seq<Option<nat>>, t: nat): Option<nat>
    requires t < |mappings|
    requires mappings[t].Some? ==> mappings[t].value < |projection|
  {
    match mappings[t]
    case None => None
    case Some(k) => Some(projection[k])
  }

  /** Some file field after `f` has the same name. */
  ghost predicate Repeated(file: seq<Field>, f: nat, opts: Options)
    requires f < |file|
  {
    exists g :: f < g < |file| && Key(file, g, opts) == Key(file, f, opts)
  }

  lemma TargetIsFirst(required: seq<Field>, file: seq<Field>, f: nat, t: nat, opts: Options)
    requires f < |file| && t < |required|
    ensures TargetOf(required, file, f, opts) == Some(t) <==>
              Key(file, f, opts) == Key(required, t, opts)
                && FindFirst(required, Key(required, t, opts), opts) == Some(t)
  {
  }

  /** The mapping reads the last file column of the name, for the first required field of the name. */
  lemma ReadFromIs(
      required: seq<Field>, file: seq<Field>, projection: seq<nat>, mappings: seq<Option<nat>>, t: nat,
      opts: Options)
    requires Projected(required, file, |file|, projection, opts) && Mapped(required, file, projection, mappings, opts)
    requires t < |required|
    ensures match ReadFrom(projection, mappings, t)
            case Some(f) => f < |file| && TargetOf(required, file, f, opts) == Some(t) && !Repeated(file, f, opts)
            case None => forall f :: 0 <= f < |file| ==> TargetOf(required, file, f, opts) != Some(t)
  {
    hide TargetOf, FindFirst, Norm;
    match mappings[t]
    case Some(k) =>
      var f := projection[k];
      if Repeated(file, f, opts) {
        var g :| f < g < |file| && Key(file, g, opts) == Key(file, f, opts);
        TargetIsFirst(required, file, f, t, opts);
        TargetIsFirst(required, file, g, t, opts);
        LaterColumn(required, file, projection, mappings, t, g, opts);
        assert false;
      }
    case None =>
      forall f | 0 <= f < |file|
        ensures TargetOf(required, file, f, opts) != Some(t)
      {
        if TargetOf(required, file, f, opts) == Some(t) {
          LaterColumn(required, file, projection, mappings, t, f, opts);
          assert false;
        }
      }
  }

  lemma NamedAlike(opts: Options, x: string, y: string)
    ensures Norm(opts, x) == Norm(opts, y) <==> Naming(opts)(x) == Naming(opts)(y)
  {
    SameNorm(opts, x, y);
  }

  lemma FeedsIs(required: seq<Field>, file: seq<Field>, f: nat, t: nat, opts: Options)
    requires f < |file| && t < |required|
    ensures Feeds(required, file, f, t, Naming(opts))
            <==> TargetOf(required, file, f, opts) == Some(t) && !Repeated(file, f, opts)
  {
    hide TargetOf, FindFirst, Norm, Naming;
    var named := Naming(opts);
    TargetIsFirst(required, file, f, t, opts);
    FirstIsFound(required, t, opts);
    NamedAlike(opts, file[f].name, required[t].name);
    forall u | 0 <= u < t
      ensures named(required[u].name) == named(required[t].name) <==> Key(required, u, opts) == Key(required, t, opts)
    {
      NamedAlike(opts, required[u].name, required[t].name);
    }
    forall g | f < g < |file|
      ensures named(file[g].name) == named(file[f].name) <==> Key(file, g, opts) == Key(file, f, opts)
    {
      NamedAlike(opts, file[g].name, file[f].name);
    }
  }

  lemma MappedByName(
      required: seq<Field>, file: seq<Field>, projection: seq<nat>, mappings: seq<Option<nat>>, opts: Options)
    requires Projected(required, file, |file|, projection, opts) && Mapped(required, file, projection, mappings, opts)
    ensures |mappings| == |required|
    ensures forall t :: 0 <= t < |mappings| && mappings[t].Some? ==> mappings[t].value < |projection|
    ensures ReadsByName(required, file, projection, mappings, Naming(opts))
  {
    ProjectedShape(required, file, projection, mappings, opts);
    hide Projected, Mapped;
    forall t, f | 0 <= t < |required| && 0 <= f < |file|
      ensures ReadFrom(projection, mappings, t) == Some(f) <==> Feeds(required, file, f, t, Naming(opts))
    {
      ReadIsFed(required, file, projection, mappings, t, f, opts);
    }
    hide ReadFrom, Feeds;
  }

  lemma ReadIsFed(
      required: seq<Field>, file: seq<Field>, projection: seq<nat>, mappings: seq<Option<nat>>, t: nat, f: nat,
      opts: Options)
    requires Projected(required, file, |file|, projection, opts) && Mapped(required, file, projection, mappings, opts)
    requires t < |required| && f < |file|
    ensures ReadFrom(projection, mappings, t) == Some(f) <==> Feeds(required, file, f, t, Naming(opts))
  {
    hide TargetOf, Repeated, Feeds;
    FeedsIs(required, file, f, t, opts);
    ReadFromIs(required, file, projection, mappings, t, opts);
    if Feeds(required, file, f, t, Naming(opts)) {
      LastIsRead(required, file, projection, mappings, t, f, opts);
    }
  }

  lemma LastIsRead(
      required: seq<Field>, file: seq<Field>, projection: seq<nat>, mappings: seq<Option<nat>>, t: nat, f: nat,
      opts: Options)
    requires Projected(required, file, |file|, projection, opts) && Mapped(required, file, projection, mappings, opts)
    requires t < |required| && f < |file|
    requires TargetOf(required, file, f, opts) == Some(t) && !Repeated(file, f, opts)
    ensures ReadFrom(projection, mappings, t) == Some(f)
  {
    hide TargetOf, FindFirst, Norm;
    LaterColumn(required, file, projection, mappings, t, f, opts);
    var g := projection[mappings[t].value];
    TargetIsFirst(required, file, f, t, opts);
    TargetIsFirst(required, file, g, t, opts);
  }

  lemma ProjectedByName(required: seq<Field>, file: seq<Field>, projection: seq<nat>, opts: Options)
    requires Projected(required, file, |file|, projection, opts)
    ensures ProjectsByName(required, file, projection, Naming(opts))
  {
    hide Norm, FindFirst, Naming;
    var named := Naming(opts);
    forall f | 0 <= f < |file|
      ensures f in projection <==> exists t :: 0 <= t < |required| && named(file[f].name) == named(required[t].name)
    {
      forall t | 0 <= t < |required|
        ensures named(file[f].name) == named(required[t].name) <==> Key(file, f, opts) == Norm(opts, required[t].name)
      {
        NamedAlike(opts, file[f].name, required[t].name);
      }
      var target := TargetOf(required, file, f, opts);
      if target.Some? {
        assert named(file[f].name) == named(required[target.value].name);
      }
    }
  }

  /** A file column with target `t` is mapped at or before the column read for `t`. */
  lemma LaterColumn(
      required: seq<Field>, file: seq<Field>, projection: seq<nat>, mappings: seq<Option<nat>>, t: nat, f: nat,
      opts: Options)
    requires Projected(required, file, |file|, projection, opts) && Mapped(required, file, projection, mappings, opts)
    requires t < |required| && f < |file| && TargetOf(required, file, f, opts) == Some(t)
    ensures mappings[t].Some? && f <= projection[mappings[t].value]
  {
    hide TargetOf;
    assert f in projection;
    var k :| 0 <= k < |projection| && projection[k] == f;
    assert mappings[t].Some? && k <= mappings[t].value;
  }

  /** The last of the first `n` file columns that is read into required field `t`. */
  function LastColumn(required: seq<Field>, file: seq<Field>, n: nat, t: nat, opts: Options): (r: Option<nat>)
    requires n <= |file|
    ensures r.Some? ==>
              && r.value < n && TargetOf(required, file, r.value, opts) == Some(t)
              && forall f :: r.value < f < n ==> TargetOf(required, file, f, opts) != Some(t)
    ensures r.None? ==> forall f :: 0 <= f < n ==> TargetOf(required, file, f, opts) != Some(t)
  {
    if n == 0 then None
    else if TargetOf(required, file, n - 1, opts) == Some(t) then Some(n - 1)
    else LastColumn(required, file, n - 1, t, opts)
  }

  /** The file column that the schemas alone say required field `t` is read from. */
  function Source(required: seq<Field>, file: seq<Field>, t: nat, opts: Options): (r: Option<nat>)
    ensures r.Some? ==> r.value < |file|
  {
    LastColumn(required, file, |file|, t, opts)
  }

  /** Projection and mapping together read every required field from its source. */
  lemma ReadFromIsSource(
      required: seq<Field>, file: seq<Field>, projection: seq<nat>, mappings: seq<Option<nat>>, t: nat,
      opts: Options)
    requires Projected(required, file, |file|, projection, opts) && Mapped(required, file, projection, mappings, opts)
    requires t < |required|
    ensures ReadFrom(projection, mappings, t) == Source(required, file, t, opts)
  {
    hide TargetOf, FindFirst, Norm, Repeated;
    ReadFromIs(required, file, projection, mappings, t, opts);
    var read, last := ReadFrom(projection, mappings, t), Source(required, file, t, opts);
    if last.Some? {
      LaterColumn(required, file, projection, mappings, t, last.value, opts);
    }
  }

  /** No earlier field has the name of field `t`. */
  ghost predicate FirstOfItsName(fields: seq<Field>, t: nat, opts: Options)
    requires t < |fields|
  {
    forall u :: 0 <= u < t ==> Key(fields, u, opts) != Key(fields, t, opts)
  }

  ghost predicate NoneNamed(fields: seq<Field>, key: string, opts: Options) {
    forall f :: 0 <= f < |fields| ==> Key(fields, f, opts) != key
  }

  ghost predicate AtMostOneNamed(fields: seq<Field>, key: string, opts: Options) {
    forall f, g :: 0 <= f < g < |fields| && Key(fields, f, opts) == key ==> Key(fields, g, opts) != key
  }

  /**
    The mapping agrees with `map_column_index` on a required field exactly when the file has
    no column of its name, or the field is the first required one of its name and the file has
    a single column of it.
   */
  lemma AgreesExactlyWhen(required: seq<Field>, file: seq<Field>, t: nat, opts: Options)
    requires t < |required|
    ensures var key := Key(required, t, opts);
            Source(required, file, t, opts) == MapColumnIndex(required, t, file, opts) <==>
              NoneNamed(file, key, opts) || (FirstOfItsName(required, t, opts) && AtMostOneNamed(file, key, opts))
  {
    hide TargetOf, FindFirst, Norm;
    var key := Key(required, t, opts);
    var found, last := MapColumnIndex(required, t, file, opts), Source(required, file, t, opts);
    FirstFileColumn(required, file, t, opts);
    FirstIsFound(required, t, opts);
    forall g | 0 <= g < |file|
      ensures TargetOf(required, file, g, opts) == Some(t) <==>
        Key(file, g, opts) == key && FirstOfItsName(required, t, opts)
    {
      TargetIsFirst(required, file, g, t, opts);
    }
    if found.Some? && last == found {
      forall f, g | 0 <= f < g < |file| && Key(file, f, opts) == key
        ensures Key(file, g, opts) != key
      {
        assert found.value < g;
        assert TargetOf(required, file, g, opts) != Some(t);
      }
    }
  }

  lemma FirstIsFound(required: seq<Field>, t: nat, opts: Options)
    requires t < |required|
    ensures FindFirst(required, Key(required, t, opts), opts) == Some(t) <==> FirstOfItsName(required, t, opts)
  {
    hide Norm;
    var first := FindFirst(required, Key(required, t, opts), opts);
    assert first.Some? && first.value <= t;
    assert Key(required, first.value, opts) == Key(required, t, opts);
  }

  lemma FirstFileColumn(required: seq<Field>, file: seq<Field>, t: nat, opts: Options)
    requires t < |required|
    ensures match MapColumnIndex(required, t, file, opts)
            case Some(f) =>
              && f < |file| && Key(file, f, opts) == Key(required, t, opts)
              && (forall g :: 0 <= g < f ==> Key(file, g, opts) != Key(required, t, opts))
            case None => forall g :: 0 <= g < |file| ==> Key(file, g, opts) != Key(required, t, opts)
  {
  }

  /** A projected column is mapped exactly when no later file column has its name. */
  lemma ColumnIsMapped(
      required: seq<Field>, file: seq<Field>, projection: seq<nat>, mappings: seq<Option<nat>>, k: nat,
      opts: Options)
    requires Projected(required, file, |file|, projection, opts) && Mapped(required, file, projection, mappings, opts)
    requires k < |projection|
    ensures Some(k) in mappings <==> !Repeated(file, projection[k], opts)
  {
    hide TargetOf, FindFirst, Norm;
    if Some(k) in mappings {
      var t :| 0 <= t < |mappings| && mappings[t] == Some(k);
      ReadFromIs(required, file, projection, mappings, t, opts);
    } else {
      var t := TargetOf(required, file, projection[k], opts).value;
      var m := mappings[t].value;
      assert mappings[t] == Some(m) && k < m;
      TargetIsFirst(required, file, projection[k], t, opts);
      TargetIsFirst(required, file, projection[m], t, opts);
    }
  }

  /**
    No column is mapped twice, and the mapped fields and the projected columns are in bijection
    exactly when no projected column is repeated in the file.
   */
  lemma MappingIsBijectionExactlyWhen(
      required: seq<Field>, file: seq<Field>, projection: seq<nat>, mappings: seq<Option<nat>>, opts: Options)
    requires Projected(required, file, |file|, projection, opts) && Mapped(required, file, projection, mappings, opts)
    ensures forall t, u :: 0 <= t < u < |mappings| && mappings[t].Some? ==> mappings[t] != mappings[u]
    ensures (forall k :: 0 <= k < |projection| ==> Some(k) in mappings)
            <==> (forall k :: 0 <= k < |projection| ==> !Repeated(file, projection[k], opts))
  {
    hide TargetOf, FindFirst, Norm, Repeated;
    forall k | 0 <= k < |projection|
      ensures Some(k) in mappings <==> !Repeated(file, projection[k], opts)
    {
      ColumnIsMapped(required, file, projection, mappings, k, opts);
    }
  }

  // ----- map_batch

  /** An output column: an array, or one value repeated. */
  datatype Column = Full(arr: Arr) | Const(one: Arr, rows: nat)

  /** A batch; or an error, a panic, or a cast that is left to Arrow. */
  datatype Batch = Batch(columns: seq<Column>) | NoBatch

  ghost predicate ColumnIs(c: Column, ty: Ty, n: nat) {
    match c
    case Full(arr) => Valid(arr) && TypeOf(arr) == ty && Len(arr) == n
    case Const(one, rows) => Valid(one) && TypeOf(one) == ty && Len(one) == 1 && rows == n
  }

  ghost function ColumnRow(c: Column, ty: Ty, n: nat, x: nat): Value
    requires ColumnIs(c, ty, n) && x < n
  {
    match c
    case Full(arr) => Row(arr, x)
    case Const(one, _) => Row(one, 0)
  }

  /** Some row of the column is null. */
  predicate HasNull(c: Column, n: nat)
    requires match c case Full(arr) => Valid(arr) case Const(one, _) => Valid(one) && Len(one) == 1
  {
    match c
    case Full(arr) => !NoNulls(arr)
    case Const(one, rows) => rows > 0 && IsNull(one, 0)
  }

  lemma HasNullRow(c: Column, ty: Ty, n: nat)
    requires ColumnIs(c, ty, n)
    ensures HasNull(c, n) <==> exists x :: 0 <= x < n && ColumnRow(c, ty, n, x) == Null
  {
    hide Row, Valid;
    match c
    case Full(arr) =>
      forall x | 0 <= x < n
        ensures Row(arr, x) == Null <==> IsNull(arr, x)
      {
        NullRow(arr, x);
      }
      if HasNull(c, n) {
        var x :| 0 <= x < n && IsNull(arr, x);
        assert ColumnRow(c, ty, n, x) == Null;
      }
    case Const(one, _) =>
      NullRow(one, 0);
      if n > 0 {
        assert ColumnRow(c, ty, n, 0) == Row(one, 0);
      }
  }

  /** A default value of the field's own type, or one that is converted to it. */
  ghost predicate DefaultReady(defaults: map<nat, Arr>, i: nat, ty: Ty, opts: Options) {
    i in defaults ==>
      && Valid(defaults[i]) && Len(defaults[i]) == 1
      && (TypeOf(defaults[i]) == ty
          || (Convertible(TypeOf(defaults[i]), ty, opts) && NullsFit(defaults[i], ty, opts)))
  }

  /** What a field missing from the file holds in every row. */
  ghost function Filler(defaults: map<nat, Arr>, i: nat, ty: Ty, opts: Options): Value
    requires DefaultReady(defaults, i, ty, opts)
  {
    if i !in defaults then Null
    else if TypeOf(defaults[i]) == ty then Row(defaults[i], 0)
    else ConvertValue(Row(defaults[i], 0), TypeOf(defaults[i]), ty, opts)
  }

  /** The column of a field that the file has. */
  method MappedColumn(column: Arr, ty: Ty, n: nat, opts: Options) returns (r: Option<Column>)
    requires Valid(column) && Len(column) == n
    ensures r.Some? <==> Convertible(TypeOf(column), ty, opts) && NullsFit(column, ty, opts)
    ensures r.Some? ==>
              && ColumnIs(r.value, ty, n)
              && forall x :: 0 <= x < n ==>
                ColumnRow(r.value, ty, n, x) == ConvertValue(Row(column, x), TypeOf(column), ty, opts)
  {
    hide Row, ConvertValue, Convertible, Valid, NullsFit, NullSafe;
    var converted := SparkParquetConvert(column, ty, opts);
    if converted.Done? && TypeOf(converted.arr) == ty {
      return Some(Full(converted.arr));
    }
    return None;
  }

  /** The column of a field that the file lacks: its default, else nulls. */
  method FilledColumn(defaults: map<nat, Arr>, i: nat, ty: Ty, n: nat, opts: Options) returns (r: Option<Column>)
    requires i in defaults ==> Valid(defaults[i]) && Len(defaults[i]) == 1
    ensures r.Some? <==> DefaultReady(defaults, i, ty, opts)
    ensures r.Some? ==>
              && ColumnIs(r.value, ty, n)
              && forall x :: 0 <= x < n ==> ColumnRow(r.value, ty, n, x) == Filler(defaults, i, ty, opts)
    ensures r.None? ==> i in defaults && TypeOf(defaults[i]) != ty
    ensures r.Some? ==>
              forall x :: 0 <= x < n ==>
                ColumnRow(r.value, ty, n, x)
                == if i !in defaults then Null
                   else if TypeOf(defaults[i]) == ty then Row(defaults[i], 0)
                   else ConvertValue(Row(defaults[i], 0), TypeOf(defaults[i]), ty, opts)
  {
    hide Row, ConvertValue, Convertible, Valid, NullArr, NullsFit, NullSafe;
    if i in defaults {
      if TypeOf(defaults[i]) == ty {
        return Some(Const(defaults[i], n));
      }
      var converted := SparkParquetConvert(defaults[i], ty, opts);
      if converted.Done? && TypeOf(converted.arr) == ty {
        return Some(Const(converted.arr, n));
      }
      return None;
    }
    NullArrIsNull(ty, 1, 0);
    return Some(Const(NullArr(ty, 1), n));
  }

  /** The column of required field `i` can be made. */
  ghost predicate Makes(
      required: seq<Field>, mappings: seq<Option<nat>>, batch: seq<Arr>, defaults: map<nat, Arr>, opts: Options,
      i: nat)
    requires i < |required| == |mappings| && (mappings[i].Some? ==> mappings[i].value < |batch|)
    requires forall k :: 0 <= k < |batch| ==> Valid(batch[k])
  {
    match mappings[i]
    case Some(k) => Convertible(TypeOf(batch[k]), required[i].ty, opts) && NullsFit(batch[k], required[i].ty, opts)
    case None => DefaultReady(defaults, i, required[i].ty, opts)
  }

  /** The value of required field `i` in row `x`. */
  ghost function Expected(
      required: seq<Field>, mappings: seq<Option<nat>>, batch: seq<Arr>, defaults: map<nat, Arr>, opts: Options,
      i: nat, x: nat): Value
    requires i < |required| == |mappings| && (mappings[i].Some? ==> mappings[i].value < |batch|)
    requires forall k :: 0 <= k < |batch| ==> Valid(batch[k])
    requires Makes(required, mappings, batch, defaults, opts, i)
    requires mappings[i].Some? ==> x < Len(batch[mappings[i].value])
  {
    match mappings[i]
    case Some(k) => ConvertValue(Row(batch[k], x), TypeOf(batch[k]), required[i].ty, opts)
    case None => Filler(defaults, i, required[i].ty, opts)
  }

  /** The column can be made and, when the field is not nullable, has no null. */
  ghost predicate Ready(
      required: seq<Field>, mappings: seq<Option<nat>>, batch: seq<Arr>, n: nat, defaults: map<nat, Arr>,
      opts: Options, i: nat)
    requires i < |required| == |mappings| && (mappings[i].Some? ==> mappings[i].value < |batch|)
    requires forall k :: 0 <= k < |batch| ==> Valid(batch[k]) && Len(batch[k]) == n
  {
    && Makes(required, mappings, batch, defaults, opts, i)
    && (required[i].nullable
        || forall x :: 0 <= x < n ==> Expected(required, mappings, batch, defaults, opts, i, x) != Null)
  }

  /** A column of the right type and length that holds the expected rows. */
  ghost predicate AdaptedAt(
      required: seq<Field>, mappings: seq<Option<nat>>, batch: seq<Arr>, n: nat, defaults: map<nat, Arr>,
      opts: Options, c: Column, i: nat)
    requires i < |required| == |mappings| && (mappings[i].Some? ==> mappings[i].value < |batch|)
    requires forall k :: 0 <= k < |batch| ==> Valid(batch[k]) && Len(batch[k]) == n
  {
    && Makes(required, mappings, batch, defaults, opts, i)
    && ColumnIs(c, required[i].ty, n)
    && forall x :: 0 <= x < n ==>
         ColumnRow(c, required[i].ty, n, x) == Expected(required, mappings, batch, defaults, opts, i, x)
  }

  /** The check of `RecordBatch` on one column. */
  lemma ReadyExactlyWhen(
      required: seq<Field>, mappings: seq<Option<nat>>, batch: seq<Arr>, n: nat, defaults: map<nat, Arr>,
      opts: Options, c: Column, i: nat)
    requires i < |required| == |mappings| && (mappings[i].Some? ==> mappings[i].value < |batch|)
    requires forall k :: 0 <= k < |batch| ==> Valid(batch[k]) && Len(batch[k]) == n
    requires AdaptedAt(required, mappings, batch, n, defaults, opts, c, i)
    ensures match c case Full(arr) => Valid(arr) case Const(one, _) => Valid(one) && Len(one) == 1
    ensures Ready(required, mappings, batch, n, defaults, opts, i) <==> required[i].nullable || !HasNull(c, n)
  {
    HasNullRow(c, required[i].ty, n);
    hide Makes, Expected, ColumnRow, HasNull, Row, Valid;
    if HasNull(c, n) {
      var x :| 0 <= x < n && ColumnRow(c, required[i].ty, n, x) == Null;
      assert Expected(required, mappings, batch, defaults, opts, i, x) == Null;
    }
  }

  /**
    Converts a batch of projected file columns to the required schema, keeping the row count. A
    batch comes out exactly when every column can be made and none that is not nullable has a null.
   */
  method MapBatch(
      required: seq<Field>, mappings: seq<Option<nat>>, batch: seq<Arr>, n: nat, defaults: map<nat, Arr>,
      opts: Options)
    returns (r: Batch)
    requires |mappings| == |required|
    requires forall i :: 0 <= i < |mappings| && mappings[i].Some? ==> mappings[i].value < |batch|
    requires forall k :: 0 <= k < |batch| ==> Valid(batch[k]) && Len(batch[k]) == n
    requires forall i :: i in defaults ==> Valid(defaults[i]) && Len(defaults[i]) == 1
    ensures r.Batch? <==> forall i :: 0 <= i < |required| ==> Ready(required, mappings, batch, n, defaults, opts, i)
    ensures r.Batch? ==>
              && |r.columns| == |required|
              && forall i :: 0 <= i < |required| ==>
                   AdaptedAt(required, mappings, batch, n, defaults, opts, r.columns[i], i)
  {
    hide ColumnIs, ColumnRow, Filler, DefaultReady, Convertible, ConvertValue, Row, Valid, NullsFit, HasNull;
    var columns: seq<Column> := [];
    for i := 0 to |required|
      invariant |columns| == i
      invariant forall j :: 0 <= j < i ==> AdaptedAt(required, mappings, batch, n, defaults, opts, columns[j], j)
    {
      var column: Option<Column>;
      if mappings[i].Some? {
        column := MappedColumn(batch[mappings[i].value], required[i].ty, n, opts);
      } else {
        column := FilledColumn(defaults, i, required[i].ty, n, opts);
      }
      if column.None? {
        assert !Ready(required, mappings, batch, n, defaults, opts, i);
        return NoBatch;
      }
      assert AdaptedAt(required, mappings, batch, n, defaults, opts, column.value, i);
      columns := columns + [column.value];
    }
    hide Ready, AdaptedAt;
    for i := 0 to |required|
      invariant forall j :: 0 <= j < i ==> Ready(required, mappings, batch, n, defaults, opts, j)
    {
      ReadyExactlyWhen(required, mappings, batch, n, defaults, opts, columns[i], i);
      if !required[i].nullable && HasNull(columns[i], n) {
        return NoBatch;
      }
    }
    return Batch(columns);
  }

  // ----- reading a batch of a file

  /** Required field `i` has a column: its source column, or else its default, converts. */
  ghost predicate Sourced(
      required: seq<Field>, file: seq<Field>, columns: seq<Arr>, defaults: map<nat, Arr>, opts: Options, i: nat)
    requires i < |required| && |columns| == |file|
    requires forall f :: 0 <= f < |columns| ==> Valid(columns[f])
  {
    match Source(required, file, i, opts)
    case Some(f) => Convertible(file[f].ty, required[i].ty, opts) && NullsFit(columns[f], required[i].ty, opts)
    case None => DefaultReady(defaults, i, required[i].ty, opts)
  }

  /** The source column converted, else the default, else null. */
  ghost function Wanted(
      required: seq<Field>, file: seq<Field>, columns: seq<Arr>, defaults: map<nat, Arr>, opts: Options, i: nat,
      x: nat): Value
    requires i < |required| && |columns| == |file|
    requires forall f :: 0 <= f < |columns| ==> Valid(columns[f]) && x < Len(columns[f])
    requires Sourced(required, file, columns, defaults, opts, i)
  {
    match Source(required, file, i, opts)
    case Some(f) => ConvertValue(Row(columns[f], x), file[f].ty, required[i].ty, opts)
    case None => Filler(defaults, i, required[i].ty, opts)
  }

  /** Required field `i` can be read: it has a column and, when it is not nullable, no null. */
  ghost predicate Readable(
      required: seq<Field>, file: seq<Field>, columns: seq<Arr>, n: nat, defaults: map<nat, Arr>, opts: Options,
      i: nat)
    requires i < |required| && |columns| == |file|
    requires forall f :: 0 <= f < |columns| ==> Valid(columns[f]) && Len(columns[f]) == n
  {
    && Sourced(required, file, columns, defaults, opts, i)
    && (required[i].nullable
        || forall x :: 0 <= x < n ==> Wanted(required, file, columns, defaults, opts, i, x) != Null)
  }

  /** With distinct names on both sides the source is the one file column of the field's name. */
  lemma DistinctAgrees(required: seq<Field>, file: seq<Field>, t: nat, opts: Options)
    requires t < |required| && Distinct(required, opts) && Distinct(file, opts)
    ensures Source(required, file, t, opts) == MapColumnIndex(required, t, file, opts)
  {
    hide Norm;
    AgreesExactlyWhen(required, file, t, opts);
  }

  /** What `MapBatch` makes of the projected columns is what the schemas ask for. */
  lemma ReadyIsReadable(
      required: seq<Field>, file: seq<Field>, columns: seq<Arr>, n: nat, defaults: map<nat, Arr>, opts: Options,
      projection: seq<nat>, mappings: seq<Option<nat>>, batch: seq<Arr>, i: nat)
    requires |columns| == |file| && i < |required|
    requires forall f :: 0 <= f < |file| ==>
      Valid(columns[f]) && TypeOf(columns[f]) == file[f].ty && Len(columns[f]) == n
    requires Projected(required, file, |file|, projection, opts) && Mapped(required, file, projection, mappings, opts)
    requires |batch| == |projection| && forall k :: 0 <= k < |projection| ==> batch[k] == columns[projection[k]]
    ensures Makes(required, mappings, batch, defaults, opts, i) <==> Sourced(required, file, columns, defaults, opts, i)
    ensures Ready(required, mappings, batch, n, defaults, opts, i)
            <==> Readable(required, file, columns, n, defaults, opts, i)
    ensures Makes(required, mappings, batch, defaults, opts, i) ==>
              forall x :: 0 <= x < n ==>
                Expected(required, mappings, batch, defaults, opts, i, x)
                == Wanted(required, file, columns, defaults, opts, i, x)
  {
    hide Filler, DefaultReady, Convertible, ConvertValue, Row, Valid, NullsFit, TargetOf, FindFirst, Source;
    ReadFromIsSource(required, file, projection, mappings, i, opts);
    if Makes(required, mappings, batch, defaults, opts, i) {
      forall x | 0 <= x < n
        ensures Expected(required, mappings, batch, defaults, opts, i, x)
                == Wanted(required, file, columns, defaults, opts, i, x)
      {
      }
      hide Expected, Wanted, Makes, Sourced;
    }
  }

  /** The column holds what required field `i` asks for, in every row. */
  ghost predicate Holds(
      required: seq<Field>, file: seq<Field>, columns: seq<Arr>, n: nat, defaults: map<nat, Arr>, opts: Options,
      c: Column, i: nat)
    requires i < |required| && |columns| == |file|
    requires forall f :: 0 <= f < |columns| ==> Valid(columns[f]) && Len(columns[f]) == n
  {
    && Readable(required, file, columns, n, defaults, opts, i)
    && ColumnIs(c, required[i].ty, n)
    && forall x :: 0 <= x < n ==>
         ColumnRow(c, required[i].ty, n, x) == Wanted(required, file, columns, defaults, opts, i, x)
  }

  /**
    Every row is the one of the file column of the field's name, converted; without one it is the
    default as it is, the default converted, or null.
   */
  ghost predicate Fed(
      required: seq<Field>, file: seq<Field>, columns: seq<Arr>, n: nat, defaults: map<nat, Arr>, opts: Options,
      c: Column, i: nat)
    requires i < |required| && |columns| == |file|
    requires forall f :: 0 <= f < |columns| ==> Valid(columns[f]) && Len(columns[f]) == n
    requires i in defaults ==> Valid(defaults[i]) && Len(defaults[i]) == 1
  {
    var ty := required[i].ty;
    && ColumnIs(c, ty, n)
    && (forall f, x :: 0 <= f < |file| && Feeds(required, file, f, i, Naming(opts)) && 0 <= x < n ==>
          ColumnRow(c, ty, n, x) == ConvertValue(Row(columns[f], x), file[f].ty, ty, opts))
    && ((forall f :: 0 <= f < |file| ==> !Feeds(required, file, f, i, Naming(opts))) ==>
          forall x :: 0 <= x < n ==>
            ColumnRow(c, ty, n, x)
            == if i !in defaults then Null
               else if TypeOf(defaults[i]) == ty then Row(defaults[i], 0)
               else ConvertValue(Row(defaults[i], 0), TypeOf(defaults[i]), ty, opts))
  }

  lemma SourceFeeds(required: seq<Field>, file: seq<Field>, f: nat, t: nat, opts: Options)
    requires f < |file| && t < |required|
    ensures Source(required, file, t, opts) == Some(f) <==> Feeds(required, file, f, t, Naming(opts))
  {
    hide TargetOf, FindFirst, Norm, Feeds;
    FeedsIs(required, file, f, t, opts);
    forall g | 0 <= g < |file|
      ensures TargetOf(required, file, f, opts) == Some(t) ==>
                (TargetOf(required, file, g, opts) == Some(t) <==> Key(file, g, opts) == Key(file, f, opts))
    {
      TargetIsFirst(required, file, f, t, opts);
      TargetIsFirst(required, file, g, t, opts);
    }
  }

  lemma HeldIsFed(
      required: seq<Field>, file: seq<Field>, columns: seq<Arr>, n: nat, defaults: map<nat, Arr>, opts: Options,
      c: Column, i: nat)
    requires i < |required| && |columns| == |file|
    requires forall f :: 0 <= f < |columns| ==> Valid(columns[f]) && Len(columns[f]) == n
    requires i in defaults ==> Valid(defaults[i]) && Len(defaults[i]) == 1
    requires Holds(required, file, columns, n, defaults, opts, c, i)
    ensures Fed(required, file, columns, n, defaults, opts, c, i)
  {
    hide Feeds, Source, Row, ConvertValue, Convertible, NullsFit, ColumnIs, ColumnRow, Valid;
    forall f | 0 <= f < |file|
      ensures Source(required, file, i, opts) == Some(f) <==> Feeds(required, file, f, i, Naming(opts))
    {
      SourceFeeds(required, file, f, i, opts);
    }
    var source := Source(required, file, i, opts);
    if source.Some? {
      assert Feeds(required, file, source.value, i, Naming(opts));
    }
  }

  /**
    From file columns to the required batch: one comes out exactly when every required field can be
    read. It has the file's row count, and each field holds its source column converted row by row,
    else its default, else nulls.
   */
  method AdaptBatch(
      required: seq<Field>, file: seq<Field>, columns: seq<Arr>, n: nat, defaults: map<nat, Arr>, opts: Options)
    returns (r: Batch)
    requires |columns| == |file|
    requires forall f :: 0 <= f < |file| ==>
      Valid(columns[f]) && TypeOf(columns[f]) == file[f].ty && Len(columns[f]) == n
    requires forall i :: i in defaults ==> Valid(defaults[i]) && Len(defaults[i]) == 1
    ensures r.Batch? <==> forall i :: 0 <= i < |required| ==> Readable(required, file, columns, n, defaults, opts, i)
    ensures r.Batch? ==>
              && |r.columns| == |required|
              && forall i :: 0 <= i < |required| ==>
                   Holds(required, file, columns, n, defaults, opts, r.columns[i], i)
    ensures r.Batch? ==>
              forall i :: 0 <= i < |required| ==>
                Fed(required, file, columns, n, defaults, opts, r.columns[i], i)
  {
    hide ColumnIs, ColumnRow, Makes, Sourced, Expected, Wanted, Ready, Valid, TargetOf, Source, Fed, Repeated;
    var projection, mappings := MapSchema(required, file, opts);
    var batch := seq(|projection|, k requires 0 <= k < |projection| => columns[projection[k]]);
    forall i | 0 <= i < |required|
      ensures Ready(required, mappings, batch, n, defaults, opts, i)
              <==> Readable(required, file, columns, n, defaults, opts, i)
    {
      ReadyIsReadable(required, file, columns, n, defaults, opts, projection, mappings, batch, i);
    }
    r := MapBatch(required, mappings, batch, n, defaults, opts);
    if r.Batch? {
      forall i | 0 <= i < |required|
        ensures Holds(required, file, columns, n, defaults, opts, r.columns[i], i)
      {
        ReadyIsReadable(required, file, columns, n, defaults, opts, projection, mappings, batch, i);
        assert AdaptedAt(required, mappings, batch, n, defaults, opts, r.columns[i], i);
      }
      forall i | 0 <= i < |required|
        ensures Fed(required, file, columns, n, defaults, opts, r.columns[i], i)
      {
        HeldIsFed(required, file, columns, n, defaults, opts, r.columns[i], i);
      }
    }
  }
}
