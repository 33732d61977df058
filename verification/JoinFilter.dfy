/**
  Binding a join condition to the columns it uses. Spark binds the condition to all columns of
  left followed by right; the native join filter is bound to a row that holds only the used
  columns, so column indices are collected, sorted and rewritten.
 */
module JoinFilter {
  import opened Wrappers

  /** A physical expression: a column reference or an operator over children. */
  datatype Expr =
    | Column(name: string, index: nat)
    | Node(op: string, children: seq<Expr>)

  datatype Error =
    | OutOfBound(reference: int)   // a column reference beyond the schema
    | OutOfRange(index: nat)
    | NotFound(index: nat)

  // ----- evaluation

  /** Every column of `e` is below `n`. */
  predicate Bound(e: Expr, n: nat)
    decreases e, 1
  {
    match e
    case Column(_, index) => index < n
    case Node(_, children) => BoundAll(children, n)
  }

  predicate BoundAll(es: seq<Expr>, n: nat)
    decreases es, 0
  {
    es == [] || (Bound(es[0], n) && BoundAll(es[1..], n))
  }

  /** The value of `e` on a row, for any meaning `f` of the operators. */
  function Eval<V>(e: Expr, row: seq<V>, f: (string, seq<V>) -> V): V
    requires Bound(e, |row|)
    decreases e, 1
  {
    match e
    case Column(_, index) => row[index]
    case Node(op, children) => f(op, EvalAll(children, row, f))
  }

  function EvalAll<V>(es: seq<Expr>, row: seq<V>, f: (string, seq<V>) -> V): seq<V>
    requires BoundAll(es, |row|)
    decreases es, 0
  {
    if es == [] then [] else [Eval(es[0], row, f)] + EvalAll(es[1..], row, f)
  }

  // ----- collecting the columns

  /** The column indices of `e`, depth first, duplicates included. */
  function Columns(e: Expr): seq<nat>
    decreases e, 1
  {
    match e
    case Column(_, index) => [index]
    case Node(_, children) => ColumnsAll(children)
  }

  function ColumnsAll(es: seq<Expr>): seq<nat>
    decreases es, 0
  {
    if es == [] then [] else Columns(es[0]) + ColumnsAll(es[1..])
  }

  /** The indices that refer to the left side. */
  function LeftOf(cs: seq<nat>, leftLen: nat): seq<nat> {
    if cs == [] then []
    else (if cs[0] < leftLen then [cs[0]] else []) + LeftOf(cs[1..], leftLen)
  }

  /** The indices that refer to the right side, counted from its first column. */
  function RightOf(cs: seq<nat>, leftLen: nat): seq<nat> {
    if cs == [] then []
    else (if cs[0] < leftLen then [] else [cs[0] - leftLen]) + RightOf(cs[1..], leftLen)
  }

  lemma SidesConcat(a: seq<nat>, b: seq<nat>, leftLen: nat)
    ensures LeftOf(a + b, leftLen) == LeftOf(a, leftLen) + LeftOf(b, leftLen)
    ensures RightOf(a + b, leftLen) == RightOf(a, leftLen) + RightOf(b, leftLen)
  {
    LeftConcat(a, b, leftLen);
    RightConcat(a, b, leftLen);
  }

  lemma {:induction false} LeftConcat(a: seq<nat>, b: seq<nat>, leftLen: nat)
    ensures LeftOf(a + b, leftLen) == LeftOf(a, leftLen) + LeftOf(b, leftLen)
  {
    if a == [] {
      assert a + b == b;
    } else {
      var rest := a[1..];
      assert (a + b)[1..] == rest + b && (a + b)[0] == a[0];
      LeftConcat(rest, b, leftLen);
      var head := if a[0] < leftLen then [a[0]] else [];
      assert LeftOf(a + b, leftLen) == head + LeftOf(rest + b, leftLen);
      Associate(head, LeftOf(rest, leftLen), LeftOf(b, leftLen));
    }
  }

  lemma {:induction false} RightConcat(a: seq<nat>, b: seq<nat>, leftLen: nat)
    ensures RightOf(a + b, leftLen) == RightOf(a, leftLen) + RightOf(b, leftLen)
  {
    if a == [] {
      assert a + b == b;
    } else {
      var rest := a[1..];
      assert (a + b)[1..] == rest + b && (a + b)[0] == a[0];
      RightConcat(rest, b, leftLen);
      var head := if a[0] < leftLen then [] else [a[0] - leftLen];
      assert RightOf(a + b, leftLen) == head + RightOf(rest + b, leftLen);
      Associate(head, RightOf(rest, leftLen), RightOf(b, leftLen));
    }
  }

  lemma Associate<T>(a: seq<T>, b: seq<T>, c: seq<T>)
    ensures a + (b + c) == (a + b) + c
  {
  }

  lemma SplitAround<T>(s: seq<T>, i: nat)
    requires i < |s|
    ensures s[..i + 1] == s[..i] + [s[i]]
    ensures s == s[..i] + [s[i]] + s[i + 1..]
  {
  }

  /** Every index lands on its side, and nothing else does. */
  lemma {:induction false} SidesMembers(cs: seq<nat>, leftLen: nat, c: nat)
    ensures c in LeftOf(cs, leftLen) <==> c in cs && c < leftLen
    ensures c in RightOf(cs, leftLen) <==> c + leftLen in cs
  {
    if cs != [] {
      SidesMembers(cs[1..], leftLen, c);
      assert cs == [cs[0]] + cs[1..];
    }
  }

  lemma {:induction false} SidesBelow(cs: seq<nat>, leftLen: nat, rightLen: nat)
    ensures AllBelow(LeftOf(cs, leftLen), leftLen)
    ensures AllBelow(cs, leftLen + rightLen) <==> AllBelow(RightOf(cs, leftLen), rightLen)
  {
    if cs != [] {
      SidesBelow(cs[1..], leftLen, rightLen);
      AllBelowCons(cs[0], cs[1..], leftLen + rightLen);
      assert cs == [cs[0]] + cs[1..];
      if cs[0] < leftLen {
        AllBelowCons(cs[0], LeftOf(cs[1..], leftLen), leftLen);
        assert [] + RightOf(cs[1..], leftLen) == RightOf(cs[1..], leftLen);
      } else {
        AllBelowCons(cs[0] - leftLen, RightOf(cs[1..], leftLen), rightLen);
        assert [] + LeftOf(cs[1..], leftLen) == LeftOf(cs[1..], leftLen);
      }
    }
  }

  lemma AllBelowCons(x: nat, s: seq<nat>, n: nat)
    ensures AllBelow([x] + s, n) <==> x < n && AllBelow(s, n)
  {
    var t := [x] + s;
    if x < n && AllBelow(s, n) {
      forall k | 0 <= k < |t|
        ensures t[k] < n
      {
      }
    }
    if AllBelow(t, n) {
      assert t[0] < n;
      forall k | 0 <= k < |s|
        ensures s[k] < n
      {
        assert t[k + 1] < n;
      }
    }
  }

  predicate AllBelow(cs: seq<nat>, n: nat) {
    forall k :: 0 <= k < |cs| ==> cs[k] < n
  }

  /** The first index beyond `n`, where the traversal stops with an error. */
  function FirstBeyond(cs: seq<nat>, n: nat): (r: Result<(), Error>)
    ensures r.Ok? <==> AllBelow(cs, n + 1)
    ensures r.Err? ==>
              exists k :: 0 <= k < |cs| && cs[k] > n && AllBelow(cs[..k], n + 1) && r.error == OutOfRange(cs[k])
  {
    if cs == [] then Ok(())
    else if cs[0] > n then
      assert AllBelow(cs[..0], n + 1);
      Err(OutOfRange(cs[0]))
    else
      var r := FirstBeyond(cs[1..], n);
      FirstFurther(cs, n, r);
      r
  }

  lemma FirstFurther(cs: seq<nat>, n: nat, r: Result<(), Error>)
    requires cs != [] && cs[0] <= n
    requires r.Err? ==>
               exists k :: 0 <= k < |cs| - 1 && cs[1..][k] > n && AllBelow(cs[1..][..k], n + 1)
                           && r.error == OutOfRange(cs[1..][k])
    ensures r.Err? ==>
              exists k :: 0 <= k < |cs| && cs[k] > n && AllBelow(cs[..k], n + 1) && r.error == OutOfRange(cs[k])
  {
    if r.Err? {
      var k :| 0 <= k < |cs| - 1 && cs[1..][k] > n && AllBelow(cs[1..][..k], n + 1)
               && r.error == OutOfRange(cs[1..][k]);
      assert cs[..k + 1] == [cs[0]] + cs[1..][..k];
      AllBelowCons(cs[0], cs[1..][..k], n + 1);
      assert cs[k + 1] == cs[1..][k];
    }
  }

  /** Pushes the columns of `e` onto the two index vectors, stopping at the first error. */
  method Collect(e: Expr, leftLen: nat, rightLen: nat, left: seq<nat>, right: seq<nat>)
    returns (r: Result<(), Error>, left': seq<nat>, right': seq<nat>)
    ensures r == FirstBeyond(Columns(e), leftLen + rightLen)
    ensures r.Ok? ==> left' == left + LeftOf(Columns(e), leftLen) && right' == right + RightOf(Columns(e), leftLen)
    decreases e, 1
  {
    left', right' := left, right;
    match e
    case Column(_, index) =>
      OneColumn(index, leftLen, leftLen + rightLen);
      if index > leftLen + rightLen {
        return Err(OutOfRange(index)), left', right';
      } else if index < leftLen {
        left' := left' + [index];
      } else {
        right' := right' + [index - leftLen];
      }
      r := Ok(());
    case Node(_, children) =>
      r, left', right' := CollectAll(children, leftLen, rightLen, left, right);
  }

  lemma OneColumn(c: nat, leftLen: nat, n: nat)
    ensures LeftOf([c], leftLen) == if c < leftLen then [c] else []
    ensures RightOf([c], leftLen) == if c < leftLen then [] else [c - leftLen]
    ensures FirstBeyond([c], n) == if c > n then Err(OutOfRange(c)) else Ok(())
  {
    assert [c][1..] == [];
  }

  method CollectAll(es: seq<Expr>, leftLen: nat, rightLen: nat, left: seq<nat>, right: seq<nat>)
    returns (r: Result<(), Error>, left': seq<nat>, right': seq<nat>)
    ensures r == FirstBeyond(ColumnsAll(es), leftLen + rightLen)
    ensures r.Ok? ==>
              && left' == left + LeftOf(ColumnsAll(es), leftLen)
              && right' == right + RightOf(ColumnsAll(es), leftLen)
    decreases es, 0
  {
    hide FirstBeyond, LeftOf, RightOf, Columns, ColumnsAll, AllBelow;
    r, left', right' := Ok(()), left, right;
    ColumnsAllStart(es, leftLen, leftLen + rightLen);
    for i := 0 to |es|
      invariant r.Ok? && r == FirstBeyond(ColumnsAll(es[..i]), leftLen + rightLen)
      invariant left' == left + LeftOf(ColumnsAll(es[..i]), leftLen)
      invariant right' == right + RightOf(ColumnsAll(es[..i]), leftLen)
    {
      r, left', right' := Collect(es[i], leftLen, rightLen, left', right');
      var before, cs := ColumnsAll(es[..i]), Columns(es[i]);
      ColumnsAllStep(es, i);
      BeyondConcat(before, cs, leftLen + rightLen);
      BeyondConcat(before + cs, ColumnsAll(es[i + 1..]), leftLen + rightLen);
      SidesConcat(before, cs, leftLen);
      if r.Err? {
        return;
      }
    }
    assert es[..|es|] == es;
  }

  lemma ColumnsAllStart(es: seq<Expr>, leftLen: nat, n: nat)
    ensures ColumnsAll(es[..0]) == [] == LeftOf([], leftLen) == RightOf([], leftLen)
    ensures FirstBeyond([], n) == Ok(())
  {
  }

  lemma ColumnsAllStep(es: seq<Expr>, i: nat)
    requires i < |es|
    ensures ColumnsAll(es[..i + 1]) == ColumnsAll(es[..i]) + Columns(es[i])
    ensures ColumnsAll(es) == ColumnsAll(es[..i]) + Columns(es[i]) + ColumnsAll(es[i + 1..])
  {
    hide Columns, ColumnsAll;
    ColumnsAllAround(es[..i], es[i], es[i + 1..]);
    SplitAround(es, i);
  }

  lemma ColumnsAllAround(before: seq<Expr>, e: Expr, after: seq<Expr>)
    ensures ColumnsAll(before + [e]) == ColumnsAll(before) + Columns(e)
    ensures ColumnsAll(before + [e] + after) == ColumnsAll(before) + Columns(e) + ColumnsAll(after)
  {
    hide Columns, ColumnsAll;
    ColumnsAllConcat(before, [e]);
    ColumnsAllConcat(before + [e], after);
    ColumnsOfOne(e);
  }

  lemma ColumnsOfOne(e: Expr)
    ensures ColumnsAll([e]) == Columns(e)
  {
    assert [e][1..] == [];
  }

  lemma {:induction false} ColumnsAllConcat(a: seq<Expr>, b: seq<Expr>)
    ensures ColumnsAll(a + b) == ColumnsAll(a) + ColumnsAll(b)
  {
    hide Columns;
    if a == [] {
      assert a + b == b;
    } else {
      assert (a + b)[1..] == a[1..] + b;
      ColumnsAllConcat(a[1..], b);
    }
  }

  lemma {:induction false} BeyondConcat(a: seq<nat>, b: seq<nat>, n: nat)
    ensures FirstBeyond(a + b, n) == if FirstBeyond(a, n).Err? then FirstBeyond(a, n) else FirstBeyond(b, n)
  {
    if a == [] {
      assert a + b == b;
    } else {
      assert (a + b)[1..] == a[1..] + b;
      BeyondConcat(a[1..], b, n);
    }
  }

  function Insert(x: nat, s: seq<nat>): seq<nat> {
    if s == [] || x <= s[0] then [x] + s else [s[0]] + Insert(x, s[1..])
  }

  /** `Vec::sort`. */
  function Sort(s: seq<nat>): seq<nat> {
    if s == [] then [] else Insert(s[0], Sort(s[1..]))
  }

  ghost predicate Ascending(s: seq<nat>) {
    forall i, j :: 0 <= i < j < |s| ==> s[i] <= s[j]
  }

  lemma {:induction false} InsertKeeps(x: nat, s: seq<nat>)
    requires Ascending(s)
    ensures Ascending(Insert(x, s)) && multiset(Insert(x, s)) == multiset{x} + multiset(s)
    ensures forall n :: AllBelow(Insert(x, s), n) <==> x < n && AllBelow(s, n)
  {
    if s == [] || x <= s[0] {
      forall n: nat
        ensures AllBelow(Insert(x, s), n) <==> x < n && AllBelow(s, n)
      {
        AllBelowCons(x, s, n);
      }
    } else {
      var t := Insert(x, s[1..]);
      InsertKeeps(x, s[1..]);
      assert s == [s[0]] + s[1..];
      forall k | 0 <= k < |t|
        ensures s[0] <= t[k]
      {
        FromMultiset(t, x, s[1..], k);
      }
      forall n: nat
        ensures AllBelow([s[0]] + t, n) <==> x < n && AllBelow(s, n)
      {
        AllBelowCons(s[0], t, n);
        AllBelowCons(s[0], s[1..], n);
      }
    }
  }

  lemma FromMultiset(t: seq<nat>, x: nat, s: seq<nat>, k: nat)
    requires multiset(t) == multiset{x} + multiset(s) && k < |t|
    ensures t[k] == x || t[k] in s
  {
    assert t[k] in multiset(t);
  }

  /** Sorting keeps every index, duplicates included. */
  lemma {:induction false} SortKeeps(s: seq<nat>)
    ensures Ascending(Sort(s)) && multiset(Sort(s)) == multiset(s)
    ensures forall n :: AllBelow(Sort(s), n) <==> AllBelow(s, n)
  {
    if s != [] {
      SortKeeps(s[1..]);
      InsertKeeps(s[0], Sort(s[1..]));
      assert s == [s[0]] + s[1..];
      forall n: nat
        ensures AllBelow(Sort(s), n) <==> AllBelow(s, n)
      {
        AllBelowCons(s[0], s[1..], n);
      }
    }
  }

  lemma SortMembers(s: seq<nat>, c: nat)
    ensures c in Sort(s) <==> c in s
  {
    SortKeeps(s);
    assert c in Sort(s) <==> c in multiset(Sort(s));
    assert c in s <==> c in multiset(s);
  }

  /** The indices used on each side, sorted, duplicates kept. */
  method ExprToColumns(e: Expr, leftLen: nat, rightLen: nat) returns (r: Result<(seq<nat>, seq<nat>), Error>)
    ensures r.Ok? <==> AllBelow(Columns(e), leftLen + rightLen + 1)
    ensures var cs, n := Columns(e), leftLen + rightLen;
            r.Err? ==>
              exists k :: 0 <= k < |cs| && cs[k] > n && AllBelow(cs[..k], n + 1) && r.error == OutOfRange(cs[k])
    ensures r.Ok? ==>
              && r.value == (Sort(LeftOf(Columns(e), leftLen)), Sort(RightOf(Columns(e), leftLen)))
              && Uses(r.value.0, Columns(e), 0, leftLen) && Uses(r.value.1, Columns(e), leftLen, leftLen + rightLen + 1)
  {
    hide Columns, LeftOf, RightOf, Sort, AllBelow, Uses, FirstBeyond;
    var status, left, right := Collect(e, leftLen, rightLen, [], []);
    if status.Err? {
      return Err(status.error);
    }
    assert [] + LeftOf(Columns(e), leftLen) == LeftOf(Columns(e), leftLen);
    assert [] + RightOf(Columns(e), leftLen) == RightOf(Columns(e), leftLen);
    SidesUse(Columns(e), leftLen, leftLen + rightLen + 1);
    return Ok((Sort(left), Sort(right)));
  }

  /** `side` holds the references from `from` up to `to`, counted from there, ascending, as often as they occur. */
  ghost predicate Uses(side: seq<nat>, refs: seq<int>, from: nat, to: nat) {
    && Ascending(side)
    && forall x: nat :: multiset(side)[x] == if from + x < to then multiset(refs)[from + x] else 0
  }

  lemma SidesUse(cs: seq<nat>, leftLen: nat, n: nat)
    requires AllBelow(cs, n)
    ensures Uses(Sort(LeftOf(cs, leftLen)), cs, 0, leftLen) && Uses(Sort(RightOf(cs, leftLen)), cs, leftLen, n)
  {
    hide LeftOf, RightOf, Sort;
    SortKeeps(LeftOf(cs, leftLen));
    SortKeeps(RightOf(cs, leftLen));
    forall x: nat
      ensures multiset(LeftOf(cs, leftLen))[x] == if 0 + x < leftLen then multiset(cs)[0 + x] else 0
      ensures multiset(RightOf(cs, leftLen))[x] == if leftLen + x < n then multiset(cs)[leftLen + x] else 0
    {
      SidesCount(cs, leftLen, x);
      if leftLen + x >= n {
        assert leftLen + x !in cs;
        assert leftLen + x !in multiset(cs);
      }
    }
    SameCounts(LeftOf(cs, leftLen), Sort(LeftOf(cs, leftLen)), cs, 0, leftLen);
    SameCounts(RightOf(cs, leftLen), Sort(RightOf(cs, leftLen)), cs, leftLen, n);
  }

  lemma SameCounts(s: seq<nat>, t: seq<nat>, cs: seq<nat>, from: nat, to: nat)
    requires Ascending(t) && multiset(s) == multiset(t)
    requires forall x: nat :: multiset(s)[x] == if from + x < to then multiset(cs)[from + x] else 0
    ensures Uses(t, cs, from, to)
  {
  }

  lemma {:induction false} SidesCount(cs: seq<nat>, leftLen: nat, x: nat)
    ensures multiset(LeftOf(cs, leftLen))[x] == if x < leftLen then multiset(cs)[x] else 0
    ensures multiset(RightOf(cs, leftLen))[x] == multiset(cs)[leftLen + x]
  {
    if cs == [] {
      assert LeftOf(cs, leftLen) == [] == RightOf(cs, leftLen);
    } else {
      hide LeftOf, RightOf;
      SidesCount(cs[1..], leftLen, x);
      SidesCountNext(cs[0], cs[1..], leftLen, x);
      assert [cs[0]] + cs[1..] == cs;
    }
  }

  lemma SidesCountNext(c: nat, cs: seq<nat>, leftLen: nat, x: nat)
    requires multiset(LeftOf(cs, leftLen))[x] == if x < leftLen then multiset(cs)[x] else 0
    requires multiset(RightOf(cs, leftLen))[x] == multiset(cs)[leftLen + x]
    ensures multiset(LeftOf([c] + cs, leftLen))[x] == if x < leftLen then multiset([c] + cs)[x] else 0
    ensures multiset(RightOf([c] + cs, leftLen))[x] == multiset([c] + cs)[leftLen + x]
  {
    SidesCons(c, cs, leftLen);
    hide LeftOf, RightOf;
    CountCons(c, cs, x);
    CountCons(c, cs, leftLen + x);
    if c < leftLen {
      CountCons(c, LeftOf(cs, leftLen), x);
    } else {
      CountCons(c - leftLen, RightOf(cs, leftLen), x);
    }
  }

  lemma SidesCons(c: nat, cs: seq<nat>, leftLen: nat)
    ensures LeftOf([c] + cs, leftLen) == if c < leftLen then [c] + LeftOf(cs, leftLen) else LeftOf(cs, leftLen)
    ensures RightOf([c] + cs, leftLen)
            == if c < leftLen then RightOf(cs, leftLen) else [c - leftLen] + RightOf(cs, leftLen)
  {
    assert ([c] + cs)[1..] == cs;
  }

  lemma CountCons(c: nat, s: seq<nat>, x: nat)
    ensures multiset([c] + s)[x] == multiset(s)[x] + if c == x then 1 else 0
  {
    assert multiset([c] + s) == multiset{c} + multiset(s);
  }

  // ----- rewriting

  /** The first position of `x`. */
  function Position(s: seq<nat>, x: nat): (r: Result<nat, Error>)
    ensures x in s ==> r.Ok? && r.value < |s| && s[r.value] == x && x !in s[..r.value]
    ensures x !in s ==> r.Err?
  {
    if s == [] then Err(NotFound(x))
    else if s[0] == x then Ok(0)
    else match Position(s[1..], x)
      case Ok(i) => assert s[..i + 1] == [s[0]] + s[1..][..i]; Ok(i + 1)
      case Err(err) => Err(err)
  }

  /** `JoinFilterRewriter`, applied from the root down; children are visited in order. */
  function Rewrite(e: Expr, leftLen: nat, rightLen: nat, left: seq<nat>, right: seq<nat>): Result<Expr, Error>
    decreases e, 1
  {
    match e
    case Column(name, index) =>
      if index < leftLen then
        match Position(left, index)
        case Ok(i) => Ok(Column(name, i))
        case Err(_) => Err(NotFound(index))
      else if index < leftLen + rightLen then
        match Position(right, index - leftLen)
        case Ok(i) => Ok(Column(name, i + |left|))
        case Err(_) => Err(NotFound(index))
      else Err(OutOfRange(index))
    case Node(op, children) =>
      match RewriteAll(children, leftLen, rightLen, left, right)
      case Ok(children') => Ok(Node(op, children'))
      case Err(err) => Err(err)
  }

  function RewriteAll(
      es: seq<Expr>, leftLen: nat, rightLen: nat, left: seq<nat>, right: seq<nat>): Result<seq<Expr>, Error>
    decreases es, 0
  {
    if es == [] then Ok([])
    else match Rewrite(es[0], leftLen, rightLen, left, right)
      case Err(err) => Err(err)
      case Ok(e') =>
        match RewriteAll(es[1..], leftLen, rightLen, left, right)
        case Err(err) => Err(err)
        case Ok(rest) => Ok([e'] + rest)
  }

  /** The row the native filter sees: the used left columns, then the used right columns. */
  function FilterRow<V>(l: seq<V>, r: seq<V>, left: seq<nat>, right: seq<nat>): (row: seq<V>)
    requires AllBelow(left, |l|) && AllBelow(right, |r|)
    ensures |row| == |left| + |right|
  {
    Pick(l, left) + Pick(r, right)
  }

  function Pick<V>(row: seq<V>, indices: seq<nat>): (picked: seq<V>)
    requires AllBelow(indices, |row|)
    ensures |picked| == |indices|
    ensures forall k :: 0 <= k < |indices| ==> picked[k] == row[indices[k]]
  {
    seq(|indices|, k requires 0 <= k < |indices| => row[indices[k]])
  }

  /** The index vectors cover the columns in `cs`. */
  ghost predicate Covers(cs: seq<nat>, leftLen: nat, rightLen: nat, left: seq<nat>, right: seq<nat>) {
    forall k :: 0 <= k < |cs| ==>
      && cs[k] < leftLen + rightLen
      && (if cs[k] < leftLen then cs[k] in left else cs[k] - leftLen in right)
  }

  lemma CoversParts(a: seq<nat>, b: seq<nat>, leftLen: nat, rightLen: nat, left: seq<nat>, right: seq<nat>)
    requires Covers(a + b, leftLen, rightLen, left, right)
    ensures Covers(a, leftLen, rightLen, left, right) && Covers(b, leftLen, rightLen, left, right)
  {
    var t := a + b;
    forall k | 0 <= k < |a|
      ensures a[k] == t[k]
    {
    }
    forall k | 0 <= k < |b|
      ensures b[k] == t[|a| + k]
    {
    }
  }

  /** Rewriting keeps the meaning on every pair of rows. */
  lemma {:induction false} RewriteKeepsMeaning<V>(
      e: Expr, leftLen: nat, rightLen: nat, left: seq<nat>, right: seq<nat>,
      l: seq<V>, r: seq<V>, f: (string, seq<V>) -> V)
    requires |l| == leftLen && |r| == rightLen
    requires AllBelow(left, leftLen) && AllBelow(right, rightLen)
    requires Covers(Columns(e), leftLen, rightLen, left, right)
    ensures Bound(e, leftLen + rightLen)
    ensures var e' := Rewrite(e, leftLen, rightLen, left, right);
            && e'.Ok? && Bound(e'.value, |left| + |right|)
            && Eval(e'.value, FilterRow(l, r, left, right), f) == Eval(e, l + r, f)
    decreases e, 1
  {
    match e
    case Column(_, index) =>
      assert Columns(e)[0] == index;
    case Node(_, children) =>
      RewriteAllKeepsMeaning(children, leftLen, rightLen, left, right, l, r, f);
  }

  lemma {:induction false} RewriteAllKeepsMeaning<V>(
      es: seq<Expr>, leftLen: nat, rightLen: nat, left: seq<nat>, right: seq<nat>,
      l: seq<V>, r: seq<V>, f: (string, seq<V>) -> V)
    requires |l| == leftLen && |r| == rightLen
    requires AllBelow(left, leftLen) && AllBelow(right, rightLen)
    requires Covers(ColumnsAll(es), leftLen, rightLen, left, right)
    ensures BoundAll(es, leftLen + rightLen)
    ensures var es' := RewriteAll(es, leftLen, rightLen, left, right);
            && es'.Ok? && BoundAll(es'.value, |left| + |right|)
            && EvalAll(es'.value, FilterRow(l, r, left, right), f) == EvalAll(es, l + r, f)
    decreases es, 0
  {
    hide FilterRow, Pick;
    if es != [] {
      CoversParts(Columns(es[0]), ColumnsAll(es[1..]), leftLen, rightLen, left, right);
      RewriteKeepsMeaning(es[0], leftLen, rightLen, left, right, l, r, f);
      RewriteAllKeepsMeaning(es[1..], leftLen, rightLen, left, right, l, r, f);
      var e' := Rewrite(es[0], leftLen, rightLen, left, right).value;
      var rest := RewriteAll(es[1..], leftLen, rightLen, left, right).value;
      assert ([e'] + rest)[1..] == rest;
    }
  }

  // ----- names

  /** The columns of `e` by name and index, in the order of `Columns`. */
  function NamedColumns(e: Expr): seq<(string, nat)>
    decreases e, 1
  {
    match e
    case Column(name, index) => [(name, index)]
    case Node(_, children) => NamedColumnsAll(children)
  }

  function NamedColumnsAll(es: seq<Expr>): seq<(string, nat)>
    decreases es, 0
  {
    if es == [] then [] else NamedColumns(es[0]) + NamedColumnsAll(es[1..])
  }

  /** The columns `after` are the columns `before`, looked up in the index vectors, with their names. */
  ghost predicate Relocated(
      before: seq<(string, nat)>, after: seq<(string, nat)>, leftLen: nat, left: seq<nat>, right: seq<nat>) {
    && |after| == |before|
    && forall k :: 0 <= k < |before| ==>
         && after[k].0 == before[k].0
         && Points(after[k].1, before[k].1, leftLen, left, right)
  }

  /** Column `i` of the filter row is column `index` of all columns. */
  ghost predicate Points(i: nat, index: int, leftLen: nat, left: seq<nat>, right: seq<nat>) {
    if i < |left| then left[i] == index < leftLen
    else i - |left| < |right| && leftLen + right[i - |left|] == index
  }

  lemma RelocatedConcat(
      a: seq<(string, nat)>, a': seq<(string, nat)>, b: seq<(string, nat)>, b': seq<(string, nat)>,
      leftLen: nat, left: seq<nat>, right: seq<nat>)
    requires Relocated(a, a', leftLen, left, right) && Relocated(b, b', leftLen, left, right)
    ensures Relocated(a + b, a' + b', leftLen, left, right)
  {
    hide Points;
  }

  lemma {:induction false} RewriteKeepsNames(
      e: Expr, leftLen: nat, rightLen: nat, left: seq<nat>, right: seq<nat>)
    requires AllBelow(left, leftLen) && Rewrite(e, leftLen, rightLen, left, right).Ok?
    ensures Relocated(NamedColumns(e), NamedColumns(Rewrite(e, leftLen, rightLen, left, right).value),
                      leftLen, left, right)
    decreases e, 1
  {
    match e
    case Column(_, index) =>
    case Node(_, children) =>
      RewriteAllKeepsNames(children, leftLen, rightLen, left, right);
  }

  lemma {:induction false} RewriteAllKeepsNames(
      es: seq<Expr>, leftLen: nat, rightLen: nat, left: seq<nat>, right: seq<nat>)
    requires AllBelow(left, leftLen) && RewriteAll(es, leftLen, rightLen, left, right).Ok?
    ensures Relocated(NamedColumnsAll(es), NamedColumnsAll(RewriteAll(es, leftLen, rightLen, left, right).value),
                      leftLen, left, right)
    decreases es, 0
  {
    hide Relocated;
    if es == [] {
      NothingRelocated(leftLen, left, right);
    } else {
      var e' := Rewrite(es[0], leftLen, rightLen, left, right).value;
      var rest := RewriteAll(es[1..], leftLen, rightLen, left, right).value;
      RewriteKeepsNames(es[0], leftLen, rightLen, left, right);
      RewriteAllKeepsNames(es[1..], leftLen, rightLen, left, right);
      RelocatedConcat(NamedColumns(es[0]), NamedColumns(e'), NamedColumnsAll(es[1..]), NamedColumnsAll(rest),
                      leftLen, left, right);
      assert ([e'] + rest)[1..] == rest;
    }
  }

  lemma NothingRelocated(leftLen: nat, left: seq<nat>, right: seq<nat>)
    ensures Relocated([], [], leftLen, left, right)
  {
  }

  // ----- creating the expression

  /** A condition as Spark sends it: references into the row of all columns, and operators. */
  datatype Condition =
    | Reference(index: int)
    | Call(op: string, args: seq<Condition>)

  /** The references of a condition, in the order they are translated. */
  function References(c: Condition): seq<int>
    decreases c, 1
  {
    match c
    case Reference(index) => [index]
    case Call(_, args) => ReferencesAll(args)
  }

  function ReferencesAll(cs: seq<Condition>): seq<int>
    decreases cs, 0
  {
    if cs == [] then [] else References(cs[0]) + ReferencesAll(cs[1..])
  }

  /** The first reference that is no column of a schema with `n` fields. */
  function FirstBad(refs: seq<int>, n: nat): (r: Option<int>)
    ensures r.None? <==> forall k :: 0 <= k < |refs| ==> 0 <= refs[k] < n
  {
    if refs == [] then None
    else if 0 <= refs[0] < n then FirstBad(refs[1..], n)
    else Some(refs[0])
  }

  ghost predicate BadFirstAt(refs: seq<int>, n: nat, k: int) {
    && 0 <= k < |refs| && !(0 <= refs[k] < n)
    && forall j :: 0 <= j < k ==> 0 <= refs[j] < n
  }

  /** The reference found is bad, and no earlier one is. */
  lemma {:induction false} FirstBadIsFirst(refs: seq<int>, n: nat) returns (k: nat)
    requires FirstBad(refs, n).Some?
    ensures BadFirstAt(refs, n, k) && FirstBad(refs, n) == Some(refs[k])
  {
    if 0 <= refs[0] < n {
      var k' := FirstBadIsFirst(refs[1..], n);
      k := k' + 1;
      forall j | 0 <= j < k
        ensures 0 <= refs[j] < n
      {
        if j > 0 {
          assert refs[1..][j - 1] == refs[j];
        }
      }
    } else {
      k := 0;
    }
  }

  /** The value of a condition on a row that has all its columns. */
  function EvalCondition<V>(c: Condition, row: seq<V>, f: (string, seq<V>) -> V): V
    requires FirstBad(References(c), |row|).None?
    decreases c, 1
  {
    match c
    case Reference(index) => assert References(c)[0] == index; row[index]
    case Call(op, args) => f(op, EvalConditions(args, row, f))
  }

  function EvalConditions<V>(cs: seq<Condition>, row: seq<V>, f: (string, seq<V>) -> V): seq<V>
    requires FirstBad(ReferencesAll(cs), |row|).None?
    decreases cs, 0
  {
    if cs == [] then []
    else
      BadConcat(References(cs[0]), ReferencesAll(cs[1..]), |row|);
      [EvalCondition(cs[0], row, f)] + EvalConditions(cs[1..], row, f)
  }

  lemma {:induction false} BadConcat(a: seq<int>, b: seq<int>, n: nat)
    ensures FirstBad(a + b, n) == if FirstBad(a, n).Some? then FirstBad(a, n) else FirstBad(b, n)
  {
    if a == [] {
      assert a + b == b;
    } else {
      assert (a + b)[1..] == a[1..] + b;
      BadConcat(a[1..], b, n);
    }
  }

  /** `create_expr` on the schema of all columns: every reference is checked against it. */
  function CreateExpr(c: Condition, names: seq<string>): Result<Expr, Error>
    decreases c, 1
  {
    match c
    case Reference(index) =>
      if index < 0 || index >= |names| then Err(OutOfBound(index)) else Ok(Column(names[index], index))
    case Call(op, args) =>
      match CreateExprs(args, names)
      case Ok(es) => Ok(Node(op, es))
      case Err(err) => Err(err)
  }

  function CreateExprs(cs: seq<Condition>, names: seq<string>): Result<seq<Expr>, Error>
    decreases cs, 0
  {
    if cs == [] then Ok([])
    else match CreateExpr(cs[0], names)
      case Err(err) => Err(err)
      case Ok(e) =>
        match CreateExprs(cs[1..], names)
        case Err(err) => Err(err)
        case Ok(es) => Ok([e] + es)
  }

  lemma {:induction false} CreatedExpr(c: Condition, names: seq<string>)
    ensures match FirstBad(References(c), |names|)
            case Some(index) => CreateExpr(c, names) == Err(OutOfBound(index))
            case None =>
              && CreateExpr(c, names).Ok?
              && Columns(CreateExpr(c, names).value) == References(c)
              && AllBelow(Columns(CreateExpr(c, names).value), |names|)
              && NamedAs(NamedColumns(CreateExpr(c, names).value), References(c), names)
    decreases c, 1
  {
    if CreateExpr(c, names).Ok? {
      CreatedNames(c, names);
    }
    match c
    case Reference(index) =>
      assert [index][1..] == [];
    case Call(_, args) =>
      CreatedExprs(args, names);
  }

  lemma {:induction false} CreatedExprs(cs: seq<Condition>, names: seq<string>)
    ensures match FirstBad(ReferencesAll(cs), |names|)
            case Some(index) => CreateExprs(cs, names) == Err(OutOfBound(index))
            case None => CreateExprs(cs, names).Ok? && ColumnsAll(CreateExprs(cs, names).value) == ReferencesAll(cs)
    decreases cs, 0
  {
    if cs != [] {
      BadConcat(References(cs[0]), ReferencesAll(cs[1..]), |names|);
      CreatedExpr(cs[0], names);
      CreatedExprs(cs[1..], names);
      var e, es := CreateExpr(cs[0], names), CreateExprs(cs[1..], names);
      if e.Ok? && es.Ok? {
        assert ([e.value] + es.value)[1..] == es.value;
      }
    }
  }

  /** The references in order, each under the name of its field. */
  ghost predicate NamedAs(cols: seq<(string, nat)>, refs: seq<int>, names: seq<string>) {
    && |cols| == |refs|
    && forall k :: 0 <= k < |refs| ==> 0 <= refs[k] < |names| && cols[k].1 == refs[k] && cols[k].0 == names[refs[k]]
  }

  lemma NamedAsConcat(
      a: seq<(string, nat)>, x: seq<int>, b: seq<(string, nat)>, y: seq<int>, names: seq<string>)
    requires NamedAs(a, x, names) && NamedAs(b, y, names)
    ensures NamedAs(a + b, x + y, names)
  {
  }

  lemma {:induction false} CreatedNames(c: Condition, names: seq<string>)
    requires CreateExpr(c, names).Ok?
    ensures NamedAs(NamedColumns(CreateExpr(c, names).value), References(c), names)
    decreases c, 1
  {
    match c
    case Reference(_) =>
    case Call(_, args) =>
      CreatedAllNames(args, names);
  }

  lemma {:induction false} CreatedAllNames(cs: seq<Condition>, names: seq<string>)
    requires CreateExprs(cs, names).Ok?
    ensures NamedAs(NamedColumnsAll(CreateExprs(cs, names).value), ReferencesAll(cs), names)
    decreases cs, 0
  {
    if cs != [] {
      CreatedNames(cs[0], names);
      CreatedAllNames(cs[1..], names);
      var e, es := CreateExpr(cs[0], names).value, CreateExprs(cs[1..], names).value;
      assert ([e] + es)[1..] == es;
      hide NamedAs;
      NamedAsConcat(NamedColumns(e), References(cs[0]), NamedColumnsAll(es), ReferencesAll(cs[1..]), names);
    }
  }

  /** The expression created means what the condition means. */
  lemma {:induction false} CreatedMeans<V>(c: Condition, names: seq<string>, row: seq<V>, f: (string, seq<V>) -> V)
    requires |row| == |names| && FirstBad(References(c), |names|).None?
    ensures var e := CreateExpr(c, names);
            e.Ok? && Bound(e.value, |row|) && Eval(e.value, row, f) == EvalCondition(c, row, f)
    decreases c, 1
  {
    match c
    case Reference(index) =>
      assert References(c)[0] == index;
    case Call(_, args) =>
      CreatedAllMean(args, names, row, f);
  }

  lemma {:induction false} CreatedAllMean<V>(
      cs: seq<Condition>, names: seq<string>, row: seq<V>, f: (string, seq<V>) -> V)
    requires |row| == |names| && FirstBad(ReferencesAll(cs), |names|).None?
    ensures var es := CreateExprs(cs, names);
            es.Ok? && BoundAll(es.value, |row|) && EvalAll(es.value, row, f) == EvalConditions(cs, row, f)
    decreases cs, 0
  {
    if cs != [] {
      BadConcat(References(cs[0]), ReferencesAll(cs[1..]), |row|);
      CreatedMeans(cs[0], names, row, f);
      CreatedAllMean(cs[1..], names, row, f);
      var e, es := CreateExpr(cs[0], names).value, CreateExprs(cs[1..], names).value;
      assert ([e] + es)[1..] == es;
    }
  }

  // ----- the whole translation

  /** A bound filter, a planner error, or the panic of looking up a missing field. */
  datatype Outcome =
    | Filter(expr: Expr, left: seq<nat>, right: seq<nat>)
    | Failed(error: Error)
    | Panicked

  /** The filter over the used columns of each side, sorted, with the indices rewritten to them. */
  ghost predicate Binds(c: Condition, leftNames: seq<string>, rightNames: seq<string>, o: Outcome) {
    var e := CreateExpr(c, leftNames + rightNames);
    var m, n := |leftNames|, |rightNames|;
    && e.Ok? && o.Filter?
    && o.left == Sort(LeftOf(Columns(e.value), m)) && o.right == Sort(RightOf(Columns(e.value), m))
    && Rewrite(e.value, m, n, o.left, o.right) == Ok(o.expr)
  }

  lemma BindsIs(c: Condition, leftNames: seq<string>, rightNames: seq<string>, o: Outcome, e: Expr)
    requires o.Filter? && CreateExpr(c, leftNames + rightNames) == Ok(e)
    requires o.left == Sort(LeftOf(Columns(e), |leftNames|)) && o.right == Sort(RightOf(Columns(e), |leftNames|))
    requires Rewrite(e, |leftNames|, |rightNames|, o.left, o.right) == Ok(o.expr)
    ensures Binds(c, leftNames, rightNames, o)
  {
  }

  lemma BelowMore(cs: seq<nat>, n: nat)
    requires AllBelow(cs, n)
    ensures AllBelow(cs, n + 1)
  {
  }

  /**
    The filter part of `parse_join_parameters`. A filter is built exactly when every reference is
    a column of the left or the right side; otherwise the error names the first that is not. The
    later range check and lookups never fail. The filter row holds every column as often as it is
    referred to, and the columns of the filter are the references in order, each pointing at its
    column in that row under the name that column has in its own schema.
   */
  method BindFilter(c: Condition, leftNames: seq<string>, rightNames: seq<string>) returns (o: Outcome)
    ensures var refs, n := References(c), |leftNames| + |rightNames|;
            && (o.Filter? <==> forall k :: 0 <= k < |refs| ==> 0 <= refs[k] < n)
            && (!o.Filter? ==>
                  exists k :: BadFirstAt(refs, n, k) && o == Failed(OutOfBound(refs[k])))
    ensures o.Filter? ==>
              var refs, m := References(c), |leftNames|;
              && Binds(c, leftNames, rightNames, o)
              && Uses(o.left, refs, 0, m) && Uses(o.right, refs, m, m + |rightNames|)
              && AllBelow(o.left, m) && AllBelow(o.right, |rightNames|)
              && ColumnsFit(NamedColumns(o.expr), refs, o.left, o.right, leftNames, rightNames)
  {
    hide Columns, Rewrite, LeftOf, RightOf, Sort, FirstBeyond, CreateExpr, References, FirstBad, NamedColumns, Uses,
      AllBelow, ColumnsFit, BadFirstAt, Binds;
    var m, n := |leftNames|, |rightNames|;
    CreatedExpr(c, leftNames + rightNames);
    var created := CreateExpr(c, leftNames + rightNames);
    if created.Err? {
      ghost var k := FirstBadIsFirst(References(c), m + n);
      return Failed(created.error);
    }
    var e := created.value;
    NothingFails(c, leftNames, rightNames);
    BelowMore(Columns(e), m + n);
    var r := ExprToColumns(e, m, n);
    match r
    case Err(err) => return Failed(err);
    case Ok((left, right)) =>
      if !AllBelow(left, m) || !AllBelow(right, n) {
        return Panicked;
      }
      match Rewrite(e, m, n, left, right)
      case Ok(e') =>
        SidesUse(Columns(e), m, m + n);
        FilterIsNamed(c, leftNames, rightNames, left, right);
        o := Filter(e', left, right);
        BindsIs(c, leftNames, rightNames, o, e);
        return o;
      case Err(err) => return Failed(err);
  }

  /** A column of the filter stands for a reference and has the name of the field it points at. */
  ghost predicate ColumnsFit(
      cols: seq<(string, nat)>, refs: seq<int>, left: seq<nat>, right: seq<nat>,
      leftNames: seq<string>, rightNames: seq<string>)
    requires AllBelow(left, |leftNames|) && AllBelow(right, |rightNames|)
  {
    && |cols| == |refs|
    && forall k :: 0 <= k < |cols| ==>
         if cols[k].1 < |left| then
           left[cols[k].1] == refs[k] && cols[k].0 == leftNames[left[cols[k].1]]
         else
           var i := cols[k].1 - |left|;
           i < |right| && |leftNames| + right[i] == refs[k] && cols[k].0 == rightNames[right[i]]
  }

  /** The columns of the filter point at their references under the names of their fields. */
  lemma FilterIsNamed(
      c: Condition, leftNames: seq<string>, rightNames: seq<string>, left: seq<nat>, right: seq<nat>)
    requires var e := CreateExpr(c, leftNames + rightNames);
             && e.Ok? && Rewrite(e.value, |leftNames|, |rightNames|, left, right).Ok?
    requires AllBelow(left, |leftNames|) && AllBelow(right, |rightNames|)
    ensures var e := CreateExpr(c, leftNames + rightNames).value;
            var e' := Rewrite(e, |leftNames|, |rightNames|, left, right).value;
            ColumnsFit(NamedColumns(e'), References(c), left, right, leftNames, rightNames)
  {
    hide Rewrite, CreateExpr, References, NamedColumns;
    var names := leftNames + rightNames;
    CreatedNames(c, names);
    RewriteKeepsNames(CreateExpr(c, names).value, |leftNames|, |rightNames|, left, right);
  }

  /** Behind the check of `create_expr` no later check or lookup fails. */
  lemma NothingFails(c: Condition, leftNames: seq<string>, rightNames: seq<string>)
    requires FirstBad(References(c), |leftNames| + |rightNames|).None?
    ensures var e := CreateExpr(c, leftNames + rightNames);
            var m, n := |leftNames|, |rightNames|;
            && e.Ok? && AllBelow(Columns(e.value), m + n)
            && var left, right := Sort(LeftOf(Columns(e.value), m)), Sort(RightOf(Columns(e.value), m));
               AllBelow(left, m) && AllBelow(right, n) && Rewrite(e.value, m, n, left, right).Ok?
  {
    hide Columns, Rewrite, LeftOf, RightOf, Sort, CreateExpr, References, FirstBad, Eval, FilterRow;
    var m, n := |leftNames|, |rightNames|;
    CreatedExpr(c, leftNames + rightNames);
    var e := CreateExpr(c, leftNames + rightNames).value;
    var cs := Columns(e);
    IndicesCover(cs, m, n);
    RewriteKeepsMeaning(e, m, n, Sort(LeftOf(cs, m)), Sort(RightOf(cs, m)),
                        seq(m, i => 0), seq(n, i => 0), (op, vs) => 0);
  }

  /**
    The bound filter means the same as the condition: on every left and right row it evaluates,
    over the used columns, to what the condition evaluates to over all columns.
   */
  lemma FilterKeepsMeaning<V>(
      c: Condition, leftNames: seq<string>, rightNames: seq<string>, o: Outcome,
      l: seq<V>, r: seq<V>, f: (string, seq<V>) -> V)
    requires |l| == |leftNames| && |r| == |rightNames|
    requires FirstBad(References(c), |l + r|).None? && Binds(c, leftNames, rightNames, o)
    ensures AllBelow(o.left, |l|) && AllBelow(o.right, |r|) && Bound(o.expr, |o.left| + |o.right|)
    ensures Eval(o.expr, FilterRow(l, r, o.left, o.right), f) == EvalCondition(c, l + r, f)
  {
    hide Columns, Rewrite, LeftOf, RightOf, Sort, Eval, Bound, FilterRow, CreateExpr, References, FirstBad,
      EvalCondition;
    var names := leftNames + rightNames;
    CreatedExpr(c, names);
    CreatedMeans(c, names, l + r, f);
    var e := CreateExpr(c, names).value;
    IndicesCover(Columns(e), |l|, |r|);
    RewriteKeepsMeaning(e, |l|, |r|, o.left, o.right, l, r, f);
  }

  lemma IndicesCover(cs: seq<nat>, leftLen: nat, rightLen: nat)
    requires AllBelow(cs, leftLen + rightLen)
    ensures var left, right := Sort(LeftOf(cs, leftLen)), Sort(RightOf(cs, leftLen));
            && AllBelow(left, leftLen) && AllBelow(right, rightLen)
            && Covers(cs, leftLen, rightLen, left, right)
  {
    hide LeftOf, RightOf, Sort;
    SidesBelow(cs, leftLen, rightLen);
    SortKeeps(LeftOf(cs, leftLen));
    SortKeeps(RightOf(cs, leftLen));
    forall k | 0 <= k < |cs|
      ensures if cs[k] < leftLen then cs[k] in Sort(LeftOf(cs, leftLen))
        else cs[k] - leftLen in Sort(RightOf(cs, leftLen))
    {
      if cs[k] < leftLen {
        SidesMembers(cs, leftLen, cs[k]);
        SortMembers(LeftOf(cs, leftLen), cs[k]);
      } else {
        SidesMembers(cs, leftLen, cs[k] - leftLen);
        SortMembers(RightOf(cs, leftLen), cs[k] - leftLen);
      }
    }
  }

}
