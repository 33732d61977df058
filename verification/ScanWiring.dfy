/**
  Lowering a Spark operator tree: the input sources are handed out to the scans from left to
  right, and a SparkPlan tree is built beside the native plan.
 */
module ScanWiring {
  import opened Wrappers

  /**
    What else translating an operator comes to (expressions, codecs, files, empty projections):
    nothing, an error returned, or a failed assertion.
   */
  datatype Check = Fine | Bad | Asserts

  /**
    The operators by how `create_plan` treats their children. A message without an operator has
    kind `Missing`.
   */
  datatype Kind =
    | Unary(check: Check)
    | Limit(num: int, offset: int)
    | Join(check: Check)
    | Window(check: Check)
    | NativeScan(check: Check)
    | Scan(types: Check, exec: Check)           // its data types, then its construction
    | Missing

  datatype Operator = Operator(planId: nat, kind: Kind, children: seq<Operator>)

  /** A scan with the source it will pull from. */
  datatype ScanExec<S> = ScanExec(planId: nat, source: Option<S>)

  datatype SparkPlan = SparkPlan(planId: nat, children: seq<SparkPlan>)

  /** A lowered tree, an error returned to the caller, or a failed assertion. */
  datatype Outcome<S> = Lowered(scans: seq<ScanExec<S>>, plan: SparkPlan) | Failed | Panicked

  /** The input sources not yet handed out. */
  class Inputs<S> {
    var items: seq<S>

    constructor (items: seq<S>)
      ensures this.items == items
    {
      this.items := items;
    }

    method RemoveFirst() returns (x: S)
      requires items != []
      modifies this
      ensures x == old(items)[0] && items == old(items)[1..]
    {
      x := items[0];
      items := items[1..];
    }
  }

  // ----- what lowering does

  /** The outcome when the rest of the translation has been reached. */
  function Checked<S>(check: Check, o: Outcome<S>): Outcome<S> {
    match check
    case Fine => o
    case Bad => Failed
    case Asserts => Panicked
  }

  /** The outcome of lowering `op` and the inputs left over, in or outside the test context. */
  function Lower<S>(op: Operator, inputs: seq<S>, test: bool): (Outcome<S>, seq<S>)
    decreases op, 1
  {
    match op.kind
    case Missing => (Panicked, inputs)
    case Scan(types, exec) =>
      if !types.Fine? then (Checked(types, Panicked), inputs)
      else if inputs == [] && !test then (Failed, inputs)
      else
        var source := if inputs == [] then None else Some(inputs[0]);
        (Checked(exec, Lowered([ScanExec(op.planId, source)], SparkPlan(op.planId, []))), Left(inputs, 1))
    case NativeScan(check) =>
      (Checked(check, Lowered([], SparkPlan(op.planId, []))), inputs)
    case Unary(check) =>
      if |op.children| != 1 then (Panicked, inputs) else LowerOnly(op, check, inputs, test)
    case Limit(num, offset) =>
      if |op.children| != 1 then (Panicked, inputs)
      else if num != -1 && offset > num then (Failed, inputs)
      else LowerOnly(op, Fine, inputs, test)
    case Window(check) =>
      if op.children == [] then (Panicked, inputs) else LowerOnly(op, check, inputs, test)
    case Join(check) =>
      if |op.children| != 2 then (Panicked, inputs)
      else
        var (l, rest) := Lower(op.children[0], inputs, test);
        if !l.Lowered? then (l, rest)
        else
          var (r, rest') := Lower(op.children[1], rest, test);
          if !r.Lowered? then (r, rest')
          else (Checked(check, Lowered(l.scans + r.scans, SparkPlan(op.planId, [l.plan, r.plan]))), rest')
  }

  /** An operator over its first child. */
  function LowerOnly<S>(op: Operator, check: Check, inputs: seq<S>, test: bool): (Outcome<S>, seq<S>)
    requires op.children != []
    decreases op, 0
  {
    var (c, rest) := Lower(op.children[0], inputs, test);
    if !c.Lowered? then (c, rest)
    else (Checked(check, Lowered(c.scans, SparkPlan(op.planId, [c.plan]))), rest)
  }

  /**
    `create_plan`. It succeeds exactly when everything it reaches translates and, outside the
    test context, there is an input for every scan. Then the k-th scan of the tree from the left
    holds the k-th input, and the inputs left over are the remaining suffix. Otherwise the first
    obstacle in the order of translation decides between an error and a failed assertion; a scan
    without an input is an error.
   */
  method CreatePlan<S>(op: Operator, inputs: Inputs<S>, test: bool) returns (o: Outcome<S>)
    modifies inputs
    ensures o.Lowered? <==> Lowerable(op) && (test || |ReachedScans(op)| <= |old(inputs.items)|)
    ensures o.Lowered? ==>
              && o.scans == Wired(ReachedScans(op), old(inputs.items))
              && inputs.items == Left(old(inputs.items), |ReachedScans(op)|)
              && (Mirrors(o.plan, op) <==> Tidy(op))
    ensures match FirstHit(Marks(op), |old(inputs.items)|, test)
            case None => o.Lowered?
            case Some(Assertion) => o.Panicked?
            case Some(_) => o.Failed?
  {
    hide Lower, Wired, Left, ReachedScans, Lowerable, Mirrors, Tidy, Marks, FirstHit;
    o := Create(op, inputs, test);
    StopsAtFirstHit(op, old(inputs.items), test);
    ScansWiredInOrder(op, old(inputs.items), test);
    if o.Lowered? {
      PlanMirrorsExactlyWhen(op, old(inputs.items), test);
    }
  }

  /** The recursion of `CreatePlan`, against its account on values. */
  method Create<S>(op: Operator, inputs: Inputs<S>, test: bool) returns (o: Outcome<S>)
    modifies inputs
    ensures (o, inputs.items) == Lower(op, old(inputs.items), test)
    decreases op, 1
  {
    match op.kind
    case Missing =>
      return Panicked;
    case Scan(types, exec) =>
      if !types.Fine? {
        return Checked(types, Panicked);
      }
      if !test && inputs.items == [] {
        return Failed;
      }
      var source: Option<S> := None;
      if !(test && inputs.items == []) {
        var x := inputs.RemoveFirst();
        source := Some(x);
      }
      return Checked(exec, Lowered([ScanExec(op.planId, source)], SparkPlan(op.planId, [])));
    case NativeScan(check) =>
      return Checked(check, Lowered([], SparkPlan(op.planId, [])));
    case Unary(check) =>
      if |op.children| != 1 {
        return Panicked;
      }
      o := CreateOnly(op, check, inputs, test);
    case Limit(num, offset) =>
      if |op.children| != 1 {
        return Panicked;
      }
      if num != -1 && offset > num {
        return Failed;
      }
      o := CreateOnly(op, Fine, inputs, test);
    case Window(check) =>
      if op.children == [] {
        return Panicked;
      }
      o := CreateOnly(op, check, inputs, test);
    case Join(check) =>
      if |op.children| != 2 {
        return Panicked;
      }
      var l := Create(op.children[0], inputs, test);
      if !l.Lowered? {
        return l;
      }
      var r := Create(op.children[1], inputs, test);
      if !r.Lowered? {
        return r;
      }
      return Checked(check, Lowered(l.scans + r.scans, SparkPlan(op.planId, [l.plan, r.plan])));
  }

  method CreateOnly<S>(op: Operator, check: Check, inputs: Inputs<S>, test: bool) returns (o: Outcome<S>)
    requires op.children != []
    modifies inputs
    ensures (o, inputs.items) == LowerOnly(op, check, old(inputs.items), test)
    decreases op, 0
  {
    var c := Create(op.children[0], inputs, test);
    if !c.Lowered? {
      return c;
    }
    return Checked(check, Lowered(c.scans, SparkPlan(op.planId, [c.plan])));
  }

  // ----- the wiring

  /** The scans that lowering reaches, from left to right. */
  function ReachedScans(op: Operator): seq<Operator> {
    match op.kind
    case Scan(_, _) => [op]
    case NativeScan(_) => []
    case Missing => []
    case Join(_) => if |op.children| < 2 then [] else ReachedScans(op.children[0]) + ReachedScans(op.children[1])
    case _ => if op.children == [] then [] else ReachedScans(op.children[0])
  }

  /** Everything lowering reaches has the right number of children and translates. */
  predicate Lowerable(op: Operator) {
    match op.kind
    case Missing => false
    case Scan(types, exec) => types.Fine? && exec.Fine?
    case NativeScan(check) => check.Fine?
    case Unary(check) => |op.children| == 1 && check.Fine? && Lowerable(op.children[0])
    case Limit(num, offset) => |op.children| == 1 && (num == -1 || offset <= num) && Lowerable(op.children[0])
    case Window(check) => op.children != [] && check.Fine? && Lowerable(op.children[0])
    case Join(check) => |op.children| == 2 && check.Fine? && Lowerable(op.children[0]) && Lowerable(op.children[1])
  }

  /** The k-th scan pulls from the k-th input; in the test context, from nothing once they run out. */
  function Wired<S>(scans: seq<Operator>, inputs: seq<S>): seq<ScanExec<S>> {
    if scans == [] then []
    else if inputs == [] then [ScanExec(scans[0].planId, None)] + Wired(scans[1..], inputs)
    else [ScanExec(scans[0].planId, Some(inputs[0]))] + Wired(scans[1..], inputs[1..])
  }

  /** The inputs left after `n` scans. */
  function Left<S>(inputs: seq<S>, n: nat): seq<S> {
    if n <= |inputs| then inputs[n..] else []
  }

  lemma {:induction false} WiredConcat<S>(a: seq<Operator>, b: seq<Operator>, inputs: seq<S>)
    ensures Wired(a + b, inputs) == Wired(a, inputs) + Wired(b, Left(inputs, |a|))
  {
    if a == [] {
      assert a + b == b;
    } else {
      assert (a + b)[1..] == a[1..] + b;
      if inputs == [] {
        WiredConcat(a[1..], b, inputs);
      } else {
        WiredConcat(a[1..], b, inputs[1..]);
      }
    }
  }

  lemma LeftTwice<S>(inputs: seq<S>, m: nat, n: nat)
    ensures Left(Left(inputs, m), n) == Left(inputs, m + n)
    ensures |Left(inputs, m)| == if m <= |inputs| then |inputs| - m else 0
  {
  }

  /**
    Lowering succeeds exactly when everything it reaches translates and, outside the test
    context, there is an input for every scan. Then the scans are those of the tree from left
    to right, the k-th holding the k-th input, and the unused inputs are the remaining suffix.
   */
  lemma {:induction false} ScansWiredInOrder<S>(op: Operator, inputs: seq<S>, test: bool)
    ensures var (o, rest) := Lower(op, inputs, test);
            var scans := ReachedScans(op);
            && (o.Lowered? <==> Lowerable(op) && (test || |scans| <= |inputs|))
            && (o.Lowered? ==> o.scans == Wired(scans, inputs) && rest == Left(inputs, |scans|))
    decreases op, 1
  {
    hide Wired, Left;
    match op.kind
    case Scan(_, _) =>
      WiredOne(op, inputs);
    case NativeScan(_) =>
      WiredNone(inputs);
    case Missing =>
    case Join(_) =>
      if |op.children| == 2 {
        JoinWiredInOrder(op, inputs, test);
      }
    case _ =>
      if op.children != [] {
        ScansWiredInOrder(op.children[0], inputs, test);
      }
  }

  lemma {:induction false} JoinWiredInOrder<S>(op: Operator, inputs: seq<S>, test: bool)
    requires op.kind.Join? && |op.children| == 2
    ensures var (o, rest) := Lower(op, inputs, test);
            var scans := ReachedScans(op);
            && (o.Lowered? <==> Lowerable(op) && (test || |scans| <= |inputs|))
            && (o.Lowered? ==> o.scans == Wired(scans, inputs) && rest == Left(inputs, |scans|))
    decreases op, 0
  {
    hide Wired, Left;
    ScansWiredInOrder(op.children[0], inputs, test);
    var (l, rest) := Lower(op.children[0], inputs, test);
    var a, b := ReachedScans(op.children[0]), ReachedScans(op.children[1]);
    LeftTwice(inputs, |a|, |b|);
    WiredConcat(a, b, inputs);
    ScansWiredInOrder(op.children[1], rest, test);
    assert ReachedScans(op) == a + b;
  }

  lemma WiredOne<S>(op: Operator, inputs: seq<S>)
    ensures Wired([op], inputs) == [ScanExec(op.planId, if inputs == [] then None else Some(inputs[0]))]
    ensures Left(inputs, 1) == if inputs == [] then [] else inputs[1..]
  {
    assert [op][1..] == [];
  }

  lemma WiredNone<S>(inputs: seq<S>)
    ensures Wired([], inputs) == [] && Left(inputs, 0) == inputs
  {
  }

  /** With enough inputs the wiring is one to one. */
  lemma {:induction false} WiredIsOneToOne<S>(scans: seq<Operator>, inputs: seq<S>)
    requires |scans| <= |inputs|
    ensures |Wired(scans, inputs)| == |scans|
    ensures forall k :: 0 <= k < |scans| ==> Wired(scans, inputs)[k] == ScanExec(scans[k].planId, Some(inputs[k]))
  {
    if scans != [] {
      WiredIsOneToOne(scans[1..], inputs[1..]);
    }
  }

  // ----- what stops it

  /** What translating comes by: an error, a failed assertion, or a scan that takes an input. */
  datatype Mark = Error | Assertion | TakesInput

  function MarkOf(check: Check): seq<Mark> {
    match check
    case Fine => []
    case Bad => [Error]
    case Asserts => [Assertion]
  }

  /** The marks of a tree in the order of translation, children before what is built from them. */
  function Marks(op: Operator): seq<Mark> {
    match op.kind
    case Missing => [Assertion]
    case Scan(types, exec) => MarkOf(types) + [TakesInput] + MarkOf(exec)
    case NativeScan(check) => MarkOf(check)
    case Unary(check) => if |op.children| != 1 then [Assertion] else Marks(op.children[0]) + MarkOf(check)
    case Limit(num, offset) =>
      if |op.children| != 1 then [Assertion]
      else if num != -1 && offset > num then [Error]
      else Marks(op.children[0])
    case Window(check) => if op.children == [] then [Assertion] else Marks(op.children[0]) + MarkOf(check)
    case Join(check) =>
      if |op.children| != 2 then [Assertion]
      else Marks(op.children[0]) + Marks(op.children[1]) + MarkOf(check)
  }

  /** The first mark that stops the translation when `n` inputs are there. */
  function FirstHit(marks: seq<Mark>, n: nat, test: bool): Option<Mark> {
    if marks == [] then None
    else match marks[0]
      case TakesInput =>
        if n > 0 then FirstHit(marks[1..], n - 1, test)
        else if test then FirstHit(marks[1..], 0, test)
        else Some(TakesInput)
      case m => Some(m)
  }

  /** The inputs left when nothing stops it. */
  function Remaining(marks: seq<Mark>, n: nat): nat {
    if marks == [] then n
    else Remaining(marks[1..], if marks[0].TakesInput? && n > 0 then n - 1 else n)
  }

  lemma {:induction false} HitConcat(a: seq<Mark>, b: seq<Mark>, n: nat, test: bool)
    ensures FirstHit(a + b, n, test)
            == if FirstHit(a, n, test).Some? then FirstHit(a, n, test) else FirstHit(b, Remaining(a, n), test)
    ensures Remaining(a + b, n) == Remaining(b, Remaining(a, n))
  {
    if a == [] {
      assert a + b == b;
    } else {
      assert (a + b)[1..] == a[1..] + b;
      HitConcat(a[1..], b, if a[0].TakesInput? && n > 0 then n - 1 else n, test);
    }
  }

  lemma HitCheck(check: Check, n: nat, test: bool)
    ensures FirstHit(MarkOf(check), n, test)
            == match check case Fine => None case Bad => Some(Error) case Asserts => Some(Assertion)
    ensures Remaining(MarkOf(check), n) == n
  {
    assert MarkOf(check) != [] ==> MarkOf(check)[1..] == [];
  }

  /** The outcome that goes with what stopped the translation. */
  predicate Stops<S>(hit: Option<Mark>, o: Outcome<S>) {
    match hit
    case None => o.Lowered?
    case Some(Assertion) => o.Panicked?
    case Some(_) => o.Failed?
  }

  /** Translation stops at the first mark that stops it, with the outcome of that mark. */
  lemma {:induction false} StopsAtFirstHit<S>(op: Operator, inputs: seq<S>, test: bool)
    ensures var (o, rest) := Lower(op, inputs, test);
            && Stops(FirstHit(Marks(op), |inputs|, test), o)
            && (o.Lowered? ==> |rest| == Remaining(Marks(op), |inputs|))
    decreases op, 1
  {
    match op.kind
    case Scan(types, exec) =>
      ScanStops(op, inputs, test);
    case NativeScan(check) =>
      HitCheck(check, |inputs|, test);
    case Missing =>
    case Join(check) =>
      if |op.children| == 2 {
        JoinStops(op, inputs, test);
      }
    case _ =>
      if op.children != [] {
        OnlyStops(op, inputs, test);
      }
  }

  lemma ScanStops<S>(op: Operator, inputs: seq<S>, test: bool)
    requires op.kind.Scan?
    ensures var (o, rest) := Lower(op, inputs, test);
            && Stops(FirstHit(Marks(op), |inputs|, test), o)
            && (o.Lowered? ==> |rest| == Remaining(Marks(op), |inputs|))
  {
    var n := |inputs|;
    var types, exec := MarkOf(op.kind.types), MarkOf(op.kind.exec);
    HitConcat(types + [TakesInput], exec, n, test);
    HitConcat(types, [TakesInput], n, test);
    HitCheck(op.kind.types, n, test);
    HitCheck(op.kind.exec, if n > 0 then n - 1 else n, test);
    assert [TakesInput][1..] == [];
  }

  lemma {:induction false} OnlyStops<S>(op: Operator, inputs: seq<S>, test: bool)
    requires op.children != [] && (op.kind.Unary? || op.kind.Limit? || op.kind.Window?)
    ensures var (o, rest) := Lower(op, inputs, test);
            && Stops(FirstHit(Marks(op), |inputs|, test), o)
            && (o.Lowered? ==> |rest| == Remaining(Marks(op), |inputs|))
    decreases op, 0
  {
    var child := op.children[0];
    StopsAtFirstHit(child, inputs, test);
    var check := if op.kind.Limit? then Fine else op.kind.check;
    HitConcat(Marks(child), MarkOf(check), |inputs|, test);
    HitCheck(check, Remaining(Marks(child), |inputs|), test);
  }

  lemma {:induction false} JoinStops<S>(op: Operator, inputs: seq<S>, test: bool)
    requires op.kind.Join? && |op.children| == 2
    ensures var (o, rest) := Lower(op, inputs, test);
            && Stops(FirstHit(Marks(op), |inputs|, test), o)
            && (o.Lowered? ==> |rest| == Remaining(Marks(op), |inputs|))
    decreases op, 0
  {
    var a, b := Marks(op.children[0]), Marks(op.children[1]);
    var check := op.kind.check;
    StopsAtFirstHit(op.children[0], inputs, test);
    StopsAtFirstHit(op.children[1], Lower(op.children[0], inputs, test).1, test);
    HitConcat(a, b, |inputs|, test);
    HitConcat(a + b, MarkOf(check), |inputs|, test);
    HitCheck(check, Remaining(a + b, |inputs|), test);
  }

  // ----- the SparkPlan tree

  /** The plan has the shape and the plan ids of the operator tree. */
  predicate Mirrors(plan: SparkPlan, op: Operator) {
    && plan.planId == op.planId
    && |plan.children| == |op.children|
    && forall i :: 0 <= i < |op.children| ==> Mirrors(plan.children[i], op.children[i])
  }

  /** Scans are leaves and windows have one child, which lowering does not check. */
  predicate Tidy(op: Operator) {
    && (op.kind.Scan? || op.kind.NativeScan? ==> op.children == [])
    && (op.kind.Window? ==> |op.children| == 1)
    && forall i :: 0 <= i < |op.children| ==> Tidy(op.children[i])
  }

  /** There is a SparkPlan for every operator exactly when no unchecked children are dropped. */
  lemma {:induction false} PlanMirrorsExactlyWhen<S>(op: Operator, inputs: seq<S>, test: bool)
    requires Lower(op, inputs, test).0.Lowered?
    ensures Mirrors(Lower(op, inputs, test).0.plan, op) <==> Tidy(op)
  {
    match op.kind
    case Missing => assert false;
    case Scan(_, _) =>
    case NativeScan(_) =>
    case Join(_) =>
      var (l, rest) := Lower(op.children[0], inputs, test);
      PlanMirrorsExactlyWhen(op.children[0], inputs, test);
      PlanMirrorsExactlyWhen(op.children[1], rest, test);
      var plan := Lower(op, inputs, test).0.plan;
      assert plan.children[0] == l.plan && plan.children[1] == Lower(op.children[1], rest, test).0.plan;
    case _ =>
      PlanMirrorsExactlyWhen(op.children[0], inputs, test);
      var plan := Lower(op, inputs, test).0.plan;
      assert plan.children[0] == Lower(op.children[0], inputs, test).0.plan;
  }

  /** All scans of the tree, depth first. */
  function AllScans(op: Operator): seq<Operator>
    decreases op, 1
  {
    (if op.kind.Scan? then [op] else []) + AllScansOf(op.children)
  }

  function AllScansOf(ops: seq<Operator>): seq<Operator>
    decreases ops, 0
  {
    if ops == [] then [] else AllScans(ops[0]) + AllScansOf(ops[1..])
  }

  /** On such trees the scans reached are all the scans. */
  lemma {:induction false} TidyReachesAllScans(op: Operator)
    requires Lowerable(op) && Tidy(op)
    ensures ReachedScans(op) == AllScans(op)
  {
    var cs := op.children;
    if |cs| == 1 {
      TidyReachesAllScans(cs[0]);
      assert cs[1..] == [];
    } else if |cs| == 2 {
      TidyReachesAllScans(cs[0]);
      TidyReachesAllScans(cs[1]);
      assert cs[1..][1..] == [] && cs[1..][0] == cs[1];
      assert AllScansOf(cs[1..]) == AllScans(cs[1]) + AllScansOf([]);
      assert AllScansOf(cs) == AllScans(cs[0]) + AllScansOf(cs[1..]);
    }
  }
}
