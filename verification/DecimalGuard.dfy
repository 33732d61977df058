/**
  The guard that decides whether decimal addition, subtraction and multiplication are computed
  on 128-bit or on 256-bit unscaled values.
 */
module DecimalGuard {

  datatype Op = Plus | Minus | Multiply

  const DECIMAL128_MAX_PRECISION: nat := 38
  const I128_LIMIT: int := 0x8000_0000_0000_0000_0000_0000_0000_0000
  const I256_LIMIT: int := I128_LIMIT * 2 * I128_LIMIT

  function Pow10(n: nat): (r: int)
    ensures r >= 1
  {
    if n == 0 then 1 else 10 * Pow10(n - 1)
  }

  function Max(a: nat, b: nat): nat {
    if a >= b then a else b
  }

  /** Whether the operands are cast to Decimal256 first. */
  predicate Widens(op: Op, p1: nat, s1: nat, p2: nat, s2: nat)
    requires s1 <= p1 && s2 <= p2
  {
    || (op != Multiply && Max(s1, s2) + Max(p1 - s1, p2 - s2) >= DECIMAL128_MAX_PRECISION)
    || (op == Multiply && p1 + p2 >= DECIMAL128_MAX_PRECISION)
  }

  /** An unscaled value of precision `p`. */
  predicate InRange(v: int, p: nat) {
    -Pow10(p) < v < Pow10(p)
  }

  /** `v` brought from scale `s` to scale `t`. */
  function Rescale(v: int, s: nat, t: nat): int
    requires s <= t
    decreases t - s
  {
    if s == t then v else 10 * Rescale(v, s + 1, t)
  }

  function Apply(op: Op, a: int, b: int): int {
    match op
    case Plus => a + b
    case Minus => a - b
    case Multiply => a * b
  }

  /** What is computed: sums on operands aligned to the larger scale, products as they are. */
  function Operands(op: Op, a: int, s1: nat, b: int, s2: nat): (int, int) {
    if op == Multiply then (a, b) else (Rescale(a, s1, Max(s1, s2)), Rescale(b, s2, Max(s1, s2)))
  }

  /** The two operands and the result, the values that must fit. */
  ghost predicate AllWithin(op: Op, a: int, s1: nat, b: int, s2: nat, limit: int) {
    var (x, y) := Operands(op, a, s1, b, s2);
    -limit < x < limit && -limit < y < limit && -limit < Apply(op, x, y) < limit
  }

  /** The number an unscaled value stands for. */
  ghost function Number(v: int, s: nat): real {
    v as real / Pow10(s) as real
  }

  lemma {:induction false} RescaleKeepsNumber(v: int, s: nat, t: nat)
    requires s <= t
    ensures Number(Rescale(v, s, t), t) == Number(v, s)
    decreases t - s
  {
    if s < t {
      RescaleKeepsNumber(v, s + 1, t);
      RescaleOut(v, s, t);
      TenfoldKeepsNumber(v, s);
    }
  }

  lemma {:induction false} RescaleOut(v: int, s: nat, t: nat)
    requires s < t
    ensures Rescale(v, s, t) == Rescale(10 * v, s + 1, t)
    decreases t - s
  {
    if s + 1 < t {
      RescaleOut(v, s + 1, t);
    }
  }

  lemma TenfoldKeepsNumber(v: int, s: nat)
    ensures Number(10 * v, s + 1) == Number(v, s)
  {
    var p := Pow10(s) as real;
    assert Pow10(s + 1) as real == 10.0 * p && (10 * v) as real == 10.0 * v as real;
  }

  /** What is computed on unscaled values is the sum, the difference or the product of the numbers. */
  lemma ResultIsExact(op: Op, a: int, s1: nat, b: int, s2: nat)
    ensures var (x, y) := Operands(op, a, s1, b, s2);
            Number(Apply(op, x, y), if op == Multiply then s1 + s2 else Max(s1, s2))
            == match op
               case Plus => Number(a, s1) + Number(b, s2)
               case Minus => Number(a, s1) - Number(b, s2)
               case Multiply => Number(a, s1) * Number(b, s2)
  {
    hide Pow10, Number, Rescale;
    if op == Multiply {
      ProductNumber(a, s1, b, s2);
    } else {
      var t := Max(s1, s2);
      RescaleKeepsNumber(a, s1, t);
      RescaleKeepsNumber(b, s2, t);
      SumNumber(Rescale(a, s1, t), Rescale(b, s2, t), t);
    }
  }

  lemma SumNumber(x: int, y: int, t: nat)
    ensures Number(x + y, t) == Number(x, t) + Number(y, t)
    ensures Number(x - y, t) == Number(x, t) - Number(y, t)
  {
    hide Pow10;
  }

  lemma ProductNumber(a: int, s1: nat, b: int, s2: nat)
    ensures Number(a * b, s1 + s2) == Number(a, s1) * Number(b, s2)
  {
    hide Pow10;
    Pow10Add(s1, s2);
    var p, q := Pow10(s1), Pow10(s2);
    RealProduct(a, b);
    RealProduct(p, q);
    Quotients(a as real, p as real, b as real, q as real);
  }

  lemma RealProduct(a: int, b: int)
    ensures (a * b) as real == a as real * b as real
  {
  }

  lemma Quotients(x: real, p: real, y: real, q: real)
    requires p > 0.0 && q > 0.0
    ensures (x * y) / (p * q) == (x / p) * (y / q)
  {
    var u, v := x / p, y / q;
    assert x == u * p && y == v * q;
    assert x * y == (u * v) * (p * q);
  }

  lemma {:induction false} Pow10Add(a: nat, b: nat)
    ensures Pow10(a + b) == Pow10(a) * Pow10(b)
  {
    if a != 0 {
      Pow10Add(a - 1, b);
      assert 10 * (Pow10(a - 1) * Pow10(b)) == Pow10(a) * Pow10(b);
    }
  }

  lemma {:induction false} Pow10Monotonic(a: nat, b: nat)
    requires a <= b
    ensures Pow10(a) <= Pow10(b)
    decreases b
  {
    if a < b {
      Pow10Monotonic(a, b - 1);
    }
  }

  /** Aligning adds the scale difference to the precision. */
  lemma {:induction false} RescaleInRange(v: int, p: nat, s: nat, t: nat)
    requires s <= t && InRange(v, p)
    ensures InRange(Rescale(v, s, t), p + (t - s))
    decreases t - s
  {
    if s < t {
      RescaleInRange(v, p, s + 1, t);
    }
  }

  lemma InRangeMore(v: int, p: nat, q: nat)
    requires p <= q && InRange(v, p)
    ensures InRange(v, q)
  {
    Pow10Monotonic(p, q);
  }

  lemma ProductBound(a: int, b: int, x: int, y: int)
    requires -x < a < x && -y < b < y
    ensures -(x * y) < a * b < x * y
  {
    var m, n := if a < 0 then -a else a, if b < 0 then -b else b;
    SmallerProduct(m, n, x, y);
    SignedProduct(a, b, m, n);
  }

  lemma SmallerProduct(m: nat, n: nat, x: int, y: int)
    requires m < x && n < y
    ensures m * n < x * y
  {
    assert m * n <= m * y;
    assert m * y < x * y;
  }

  lemma SignedProduct(a: int, b: int, m: int, n: int)
    requires (a == m || a == -m) && (b == n || b == -n)
    ensures a * b == m * n || a * b == -(m * n)
  {
  }

  lemma ProductInRange(a: int, p1: nat, b: int, p2: nat, e: nat)
    requires InRange(a, p1) && InRange(b, p2) && p1 + p2 <= e
    ensures InRange(a, e) && InRange(b, e) && InRange(a * b, e)
  {
    hide Pow10;
    InRangeMore(a, p1, e);
    InRangeMore(b, p2, e);
    ProductBound(a, b, Pow10(p1), Pow10(p2));
    Pow10Add(p1, p2);
    Pow10Monotonic(p1 + p2, e);
  }

  /** Aligned sums and differences stay below twice a power of ten, products below one. */
  lemma ResultBound(op: Op, a: int, p1: nat, s1: nat, b: int, p2: nat, s2: nat, e: nat)
    requires s1 <= p1 && s2 <= p2 && InRange(a, p1) && InRange(b, p2)
    requires op != Multiply ==> Max(s1, s2) + Max(p1 - s1, p2 - s2) <= e
    requires op == Multiply ==> p1 + p2 <= e
    ensures AllWithin(op, a, s1, b, s2, 2 * Pow10(e))
  {
    hide Pow10;
    if op == Multiply {
      ProductInRange(a, p1, b, p2, e);
    } else {
      var t := Max(s1, s2);
      RescaleInRange(a, p1, s1, t);
      RescaleInRange(b, p2, s2, t);
      InRangeMore(Rescale(a, s1, t), p1 + (t - s1), e);
      InRangeMore(Rescale(b, s2, t), p2 + (t - s2), e);
    }
  }

  lemma Pow10Of38()
    ensures 2 * Pow10(37) < Pow10(38) < I128_LIMIT
  {
    assert Pow10(10) == 10000000000 by {
      assert Pow10(5) == 100000;
      Pow10Add(5, 5);
    }
    Pow10Add(10, 10);
    Pow10Add(20, 10);
    assert Pow10(7) == 10000000 by {
      assert Pow10(5) == 100000;
    }
    Pow10Add(30, 7);
  }

  lemma Pow10Of76()
    ensures 2 * Pow10(76) < I256_LIMIT
  {
    Pow10Of38();
    Pow10Add(38, 38);
    assert Pow10(38) == 100000000000000000000000000000000000000 by {
      Pow10Of38Is();
    }
  }

  lemma Pow10Of38Is()
    ensures Pow10(38) == 100000000000000000000000000000000000000
  {
    assert Pow10(5) == 100000;
    Pow10Add(5, 5);
    Pow10Add(10, 10);
    Pow10Add(20, 10);
    assert Pow10(8) == 1000 * Pow10(5);
    Pow10Add(30, 8);
  }

  /**
    The guard is sound: for all precisions up to 38 and operands in range, what is not widened
    keeps operands and result below 10^38, so within 128 bits, and what is widened stays
    within 256 bits.
   */
  lemma GuardIsSound(op: Op, a: int, p1: nat, s1: nat, b: int, p2: nat, s2: nat)
    requires s1 <= p1 <= DECIMAL128_MAX_PRECISION && s2 <= p2 <= DECIMAL128_MAX_PRECISION
    requires InRange(a, p1) && InRange(b, p2)
    ensures !Widens(op, p1, s1, p2, s2) ==>
              AllWithin(op, a, s1, b, s2, Pow10(38)) && AllWithin(op, a, s1, b, s2, I128_LIMIT)
    ensures Widens(op, p1, s1, p2, s2) ==> AllWithin(op, a, s1, b, s2, I256_LIMIT)
  {
    hide Pow10, Operands, Apply;
    if Widens(op, p1, s1, p2, s2) {
      ResultBound(op, a, p1, s1, b, p2, s2, 76);
      Pow10Of76();
    } else {
      ResultBound(op, a, p1, s1, b, p2, s2, 37);
      Pow10Of38();
    }
  }

  /** The digits that the type of the exact result has. */
  function ResultPrecision(op: Op, p1: nat, s1: nat, p2: nat, s2: nat): nat
    requires s1 <= p1 && s2 <= p2
  {
    if op == Multiply then p1 + p2 + 1 else Max(s1, s2) + Max(p1 - s1, p2 - s2) + 1
  }

  /** Every result has at most those digits. */
  lemma ResultInPrecision(op: Op, a: int, p1: nat, s1: nat, b: int, p2: nat, s2: nat)
    requires s1 <= p1 && s2 <= p2 && InRange(a, p1) && InRange(b, p2)
    ensures var (x, y) := Operands(op, a, s1, b, s2);
            InRange(Apply(op, x, y), ResultPrecision(op, p1, s1, p2, s2))
  {
    hide Pow10, Operands, Apply;
    var e := ResultPrecision(op, p1, s1, p2, s2) - 1;
    ResultBound(op, a, p1, s1, b, p2, s2, e);
    Pow10Step(e);
  }

  /**
    The guard widens exactly when the exact result has more than 38 digits by its type, that is,
    when some value of its precision is too large for 38 digits.
   */
  lemma WidensExactlyWhen(op: Op, p1: nat, s1: nat, p2: nat, s2: nat)
    requires s1 <= p1 && s2 <= p2
    ensures Widens(op, p1, s1, p2, s2) <==> ResultPrecision(op, p1, s1, p2, s2) > 38
    ensures Widens(op, p1, s1, p2, s2)
            <==> exists v :: InRange(v, ResultPrecision(op, p1, s1, p2, s2)) && !InRange(v, 38)
  {
    hide Pow10;
    var e := ResultPrecision(op, p1, s1, p2, s2);
    if e > 38 {
      Pow10Step(38);
      Pow10Monotonic(39, e);
      assert InRange(Pow10(38), e) && !InRange(Pow10(38), 38);
    } else {
      Pow10Monotonic(e, 38);
    }
  }

  /**
    In terms of the bounds of the operands: it widens exactly when an aligned bound, or the product
    of the bounds, reaches 10^38.
   */
  lemma WidensByBoundsExactlyWhen(op: Op, p1: nat, s1: nat, p2: nat, s2: nat)
    requires s1 <= p1 && s2 <= p2
    ensures var t := Max(s1, s2);
            Widens(op, p1, s1, p2, s2)
            <==> if op == Multiply then Pow10(p1) * Pow10(p2) >= Pow10(38)
                 else Rescale(Pow10(p1), s1, t) >= Pow10(38) || Rescale(Pow10(p2), s2, t) >= Pow10(38)
  {
    hide Pow10, Rescale;
    if op == Multiply {
      ProductReaches(p1, p2);
    } else {
      AlignedReaches(p1, s1, Max(s1, s2));
      AlignedReaches(p2, s2, Max(s1, s2));
    }
  }

  lemma ProductReaches(p1: nat, p2: nat)
    ensures Pow10(p1) * Pow10(p2) >= Pow10(38) <==> p1 + p2 >= 38
  {
    hide Pow10;
    Pow10Add(p1, p2);
    Reaches(p1 + p2);
  }

  lemma AlignedReaches(p: nat, s: nat, t: nat)
    requires s <= t
    ensures Rescale(Pow10(p), s, t) >= Pow10(38) <==> p + (t - s) >= 38
  {
    hide Pow10, Rescale;
    RescaledBound(p, s, t);
    Reaches(p + (t - s));
  }

  lemma {:induction false} RescaledBound(p: nat, s: nat, t: nat)
    requires s <= t
    ensures Rescale(Pow10(p), s, t) == Pow10(p + (t - s))
    decreases t - s
  {
    if s < t {
      RescaledBound(p, s + 1, t);
    }
  }

  lemma Reaches(n: nat)
    ensures Pow10(n) >= Pow10(38) <==> n >= 38
  {
    hide Pow10;
    if n >= 38 {
      Pow10Monotonic(38, n);
    } else {
      Pow10Monotonic(n, 37);
      Pow10Step(37);
    }
  }

  /** Aligned precisions, or a product precision, at which some operands leave 128 bits. */
  predicate Leaves(op: Op, p1: nat, s1: nat, p2: nat, s2: nat)
    requires s1 <= p1 && s2 <= p2
  {
    if op == Multiply then p1 + p2 > DECIMAL128_MAX_PRECISION
    else
      var e1, e2 := p1 + (Max(s1, s2) - s1), p2 + (Max(s1, s2) - s2);
      || e1 > DECIMAL128_MAX_PRECISION || e2 > DECIMAL128_MAX_PRECISION
      || (e1 == DECIMAL128_MAX_PRECISION && e2 == DECIMAL128_MAX_PRECISION)
  }

  /** Some operands of the given types make an operand or the result leave 128 bits. */
  ghost predicate CanLeave(op: Op, p1: nat, s1: nat, p2: nat, s2: nat) {
    exists a, b :: InRange(a, p1) && InRange(b, p2) && !AllWithin(op, a, s1, b, s2, I128_LIMIT)
  }

  /**
    When the guard is needed: some operands leave 128 bits exactly when both aligned precisions
    reach 38 or one exceeds it, and for products when the precisions add up to more than 38. All
    those types are widened.
   */
  lemma GuardIsNeededExactlyWhen(op: Op, p1: nat, s1: nat, p2: nat, s2: nat)
    requires s1 <= p1 && s2 <= p2 && 1 <= p1 && 1 <= p2
    ensures CanLeave(op, p1, s1, p2, s2) <==> Leaves(op, p1, s1, p2, s2)
    ensures Leaves(op, p1, s1, p2, s2) ==> Widens(op, p1, s1, p2, s2)
  {
    hide Pow10, Operands, Apply, AllWithin;
    if Leaves(op, p1, s1, p2, s2) {
      if op == Multiply {
        ProductLeaves(p1, s1, p2, s2);
      } else {
        SumLeaves(op, p1, s1, p2, s2);
      }
    } else {
      forall a, b | InRange(a, p1) && InRange(b, p2)
        ensures AllWithin(op, a, s1, b, s2, I128_LIMIT)
      {
        StaysWithin(op, a, p1, s1, b, p2, s2);
      }
    }
  }

  lemma StaysWithin(op: Op, a: int, p1: nat, s1: nat, b: int, p2: nat, s2: nat)
    requires s1 <= p1 && s2 <= p2 && !Leaves(op, p1, s1, p2, s2) && InRange(a, p1) && InRange(b, p2)
    ensures AllWithin(op, a, s1, b, s2, I128_LIMIT)
  {
    hide Pow10;
    Pow10Of38Is();
    Pow10Step(37);
    if op == Multiply {
      ProductInRange(a, p1, b, p2, 38);
    } else {
      var t := Max(s1, s2);
      var e1, e2 := p1 + (t - s1), p2 + (t - s2);
      RescaleInRange(a, p1, s1, t);
      RescaleInRange(b, p2, s2, t);
      InRangeMore(Rescale(a, s1, t), e1, if e1 < 38 then 37 else 38);
      InRangeMore(Rescale(b, s2, t), e2, if e2 < 38 then 37 else 38);
    }
  }

  lemma Pow10Step(n: nat)
    ensures Pow10(n + 1) == 10 * Pow10(n)
  {
  }

  /** The largest value of a precision, aligned, is at least nine tenths of its power of ten. */
  lemma {:induction false} RescaledLargest(v: int, n: nat, s: nat, t: nat)
    requires s <= t && v >= 9 * Pow10(n)
    ensures Rescale(v, s, t) >= 9 * Pow10(n + (t - s))
    decreases t - s
  {
    if s < t {
      RescaledLargest(v, n, s + 1, t);
      Pow10Step(n + (t - s) - 1);
    }
  }

  lemma SumLeaves(op: Op, p1: nat, s1: nat, p2: nat, s2: nat)
    requires s1 <= p1 && s2 <= p2 && 1 <= p1 && 1 <= p2 && op != Multiply && Leaves(op, p1, s1, p2, s2)
    ensures CanLeave(op, p1, s1, p2, s2)
  {
    hide Pow10;
    var a, m := Pow10(p1) - 1, Pow10(p2) - 1;
    var b := if op == Plus then m else -m;
    var t := Max(s1, s2);
    var e1, e2 := p1 + (t - s1), p2 + (t - s2);
    Pow10Of38Is();
    Pow10Step(37);
    Pow10Step(p1 - 1);
    Pow10Step(p2 - 1);
    RescaledLargest(a, p1 - 1, s1, t);
    RescaledLargest(m, p2 - 1, s2, t);
    RescaleNegated(m, s2, t);
    Pow10Monotonic(37, if e1 >= 38 then e1 - 1 else 37);
    Pow10Monotonic(37, if e2 >= 38 then e2 - 1 else 37);
    if e1 > 38 {
      Pow10Monotonic(38, e1 - 1);
    }
    if e2 > 38 {
      Pow10Monotonic(38, e2 - 1);
    }
    assert InRange(a, p1) && InRange(b, p2);
    assert !AllWithin(op, a, s1, b, s2, I128_LIMIT);
  }

  lemma {:induction false} RescaleNegated(v: int, s: nat, t: nat)
    requires s <= t
    ensures Rescale(-v, s, t) == -Rescale(v, s, t)
    decreases t - s
  {
    if s < t {
      RescaleNegated(v, s + 1, t);
    }
  }

  lemma ProductLeaves(p1: nat, s1: nat, p2: nat, s2: nat)
    requires s1 <= p1 && s2 <= p2 && 1 <= p1 && 1 <= p2 && p1 + p2 > 38
    ensures CanLeave(Multiply, p1, s1, p2, s2)
  {
    hide Pow10;
    var a, b := Pow10(p1) - 1, Pow10(p2) - 1;
    var x, y := Pow10(p1 - 1), Pow10(p2 - 1);
    Pow10Of38Is();
    Pow10Step(37);
    Pow10Step(p1 - 1);
    Pow10Step(p2 - 1);
    Pow10Add(p1 - 1, p2 - 1);
    Pow10Monotonic(37, p1 - 1 + (p2 - 1));
    NineTenths(a, b, x, y);
    assert InRange(a, p1) && InRange(b, p2);
    assert !AllWithin(Multiply, a, s1, b, s2, I128_LIMIT);
  }

  lemma NineTenths(a: int, b: int, x: int, y: int)
    requires a >= 9 * x && b >= 9 * y && x >= 0 && y >= 0
    ensures a * b >= 81 * (x * y)
  {
    assert a * b >= (9 * x) * b;
    assert (9 * x) * b >= (9 * x) * (9 * y);
    assert (9 * x) * (9 * y) == 81 * (x * y);
  }
}
