/** Scalar multiples of curve points: the group the extended points stand for, and the double-and-add loop. */
module EdwardsGroup {
  import opened PrimeField
  import opened Edwards

  /** What is assumed of a curve: a prime field, and the addition law. */
  ghost predicate IsCurve(c: Curve) {
    c.p > 2 && IsPrimeField(c.p) && AdditionLaw(c)
  }

  /** n-fold sum of a point. */
  function Times(c: Curve, n: nat, a: Affine): Affine
    requires c.p > 2
  {
    if n == 0 then ZERO else Sum(c, Times(c, n - 1, a), a)
  }

  // ----- The group -----

  lemma ZeroIsOnCurve(c: Curve)
    requires c.p > 2
    ensures OnCurve(c, ZERO)
  {
    CongRefl(c.p, 1);
    assert 1 * 1 - 0 * 0 == 1 + c.d * (0 * 0) * (1 * 1);
  }

  lemma SumIsClosed(c: Curve, a: Affine, b: Affine)
    requires IsCurve(c) && OnCurve(c, a) && OnCurve(c, b)
    ensures OnCurve(c, Sum(c, a, b))
  {
    hide IsPrimeField;
    LawHolds(c, a, b);
  }

  lemma SumAssociates(c: Curve, a: Affine, b: Affine, e: Affine)
    requires IsCurve(c) && OnCurve(c, a) && OnCurve(c, b) && OnCurve(c, e)
    ensures Sum(c, Sum(c, a, b), e) == Sum(c, a, Sum(c, b, e))
  {
    hide Sum, OnCurve, IsPrimeField, Cross;
    assert AssociatesAt(c, a, b, e);
  }

  lemma SumCommutes(c: Curve, a: Affine, b: Affine)
    requires c.p > 2
    ensures Sum(c, a, b) == Sum(c, b, a)
  {
    assert XTerm(a, b) == XTerm(b, a) by { Commute(a.x, b.y); Commute(a.y, b.x); }
    assert YTerm(a, b) == YTerm(b, a) by { Commute(a.y, b.y); Commute(a.x, b.x); }
    assert Cross(c, a, b) == Cross(c, b, a) by { CrossCommutes(c.d, a.x * a.y, b.x * b.y); }
    hide XTerm, YTerm, Cross, Quotient;
  }

  lemma CrossCommutes(d: int, u: int, v: int)
    ensures d * u * v == d * v * u
  {
    assert d * u * v == d * (u * v) == d * (v * u);
  }

  lemma SumWithZero(c: Curve, a: Affine)
    requires IsCurve(c) && OnCurve(c, a)
    ensures Sum(c, a, ZERO) == a && Sum(c, ZERO, a) == a
  {
    hide Quotient, XTerm, YTerm, Cross, Cong, IsPrimeField, AdditionLaw;
    TermsWithZero(c, a);
    DivideByOne(c, a.x);
    DivideByOne(c, a.y);
    SumCommutes(c, a, ZERO);
  }

  lemma TermsWithZero(c: Curve, a: Affine)
    ensures XTerm(a, ZERO) == a.x && YTerm(a, ZERO) == a.y && Cross(c, a, ZERO) == 0
  {
    assert ZERO.x == 0 && ZERO.y == 1;
    var x, y, d := a.x, a.y, c.d;
    assert x * 1 == x && y * 0 == 0 && y * 1 == y && x * 0 == 0;
    var k := d * (x * y);
    assert k * (0 * 1) == 0;
  }

  lemma DivideByOne(c: Curve, x: int)
    requires c.p > 2 && IsPrimeField(c.p) && 0 <= x < c.p
    ensures Quotient(c, x, 1) == x
  {
    TwoIsNonZero(c.p);
    DivideSpec(c, x, 1);
    assert Quotient(c, x, 1) * 1 == Quotient(c, x, 1);
    hide Cong, IsPrimeField;
    CongInRange(c.p, Quotient(c, x, 1), x);
  }

  // ----- Multiples -----

  lemma {:induction false} TimesIsOnCurve(c: Curve, n: nat, a: Affine)
    requires IsCurve(c) && OnCurve(c, a)
    ensures OnCurve(c, Times(c, n, a))
    decreases n
  {
    hide OnCurve, Sum, IsPrimeField, AdditionLaw;
    if n == 0 {
      ZeroIsOnCurve(c);
    } else {
      TimesIsOnCurve(c, n - 1, a);
      SumIsClosed(c, Times(c, n - 1, a), a);
    }
  }

  /** (m + n) A = m A + n A. */
  lemma {:induction false} TimesOfSum(c: Curve, m: nat, n: nat, a: Affine)
    requires IsCurve(c) && OnCurve(c, a)
    ensures Times(c, m + n, a) == Sum(c, Times(c, m, a), Times(c, n, a))
    decreases n
  {
    hide OnCurve, Sum, IsPrimeField, AdditionLaw;
    TimesIsOnCurve(c, m, a);
    if n == 0 {
      SumWithZero(c, Times(c, m, a));
    } else {
      TimesOfSum(c, m, n - 1, a);
      TimesIsOnCurve(c, n - 1, a);
      SumAssociates(c, Times(c, m, a), Times(c, n - 1, a), a);
    }
  }

  function Mul(m: nat, n: nat): nat {
    if m == 0 then 0 else Mul(m - 1, n) + n
  }

  lemma {:induction false} MulIsProduct(m: nat, n: nat)
    ensures Mul(m, n) == m * n
    decreases m
  {
    if m > 0 {
      MulIsProduct(m - 1, n);
      assert m * n == (m - 1) * n + n;
    }
  }

  /** (m n) A = m (n A). */
  lemma {:induction false} TimesOfProduct(c: Curve, m: nat, n: nat, a: Affine)
    requires IsCurve(c) && OnCurve(c, a)
    ensures Times(c, Mul(m, n), a) == Times(c, m, Times(c, n, a))
    decreases m
  {
    hide OnCurve, Sum, IsPrimeField, AdditionLaw;
    if m > 0 {
      TimesOfProduct(c, m - 1, n, a);
      TimesOfSum(c, Mul(m - 1, n), n, a);
    }
  }

  lemma {:induction false} TimesOfZero(c: Curve, n: nat)
    requires IsCurve(c)
    ensures Times(c, n, ZERO) == ZERO
    decreases n
  {
    hide Sum, IsPrimeField, AdditionLaw;
    ZeroIsOnCurve(c);
    if n > 0 {
      TimesOfZero(c, n - 1);
      SumWithZero(c, ZERO);
    }
  }

  lemma TimesOne(c: Curve, a: Affine)
    requires IsCurve(c) && OnCurve(c, a)
    ensures Times(c, 1, a) == a
  {
    hide Sum, IsPrimeField, AdditionLaw, OnCurve;
    assert Times(c, 0, a) == ZERO;
    SumWithZero(c, a);
  }

  /** A doubled point absorbs a factor of two. */
  lemma TimesOfDouble(c: Curve, n: nat, a: Affine)
    requires IsCurve(c) && OnCurve(c, a)
    ensures Times(c, n, Sum(c, a, a)) == Times(c, 2 * n, a)
  {
    hide Sum, IsPrimeField, AdditionLaw, OnCurve;
    TimesOne(c, a);
    TimesOfSum(c, 1, 1, a);
    TimesOfProduct(c, n, 2, a);
    MulIsProduct(n, 2);
  }

  // ----- Double and add -----

  /** What remains to be computed from a state of the loop of `_multiply`. */
  function DoubleAndAdd(c: Curve, scalar: nat, result: Point, point: Point): Point
    requires c.p > 2
    decreases scalar
  {
    if scalar == 0 then result
    else DoubleAndAdd(c, scalar / 2, if scalar % 2 == 1 then Add(c, result, point) else result, Add(c, point, point))
  }

  /** The value of `_multiply`. */
  function Product(c: Curve, scalar: nat, point: Point): Point
    requires c.p > 2
  {
    DoubleAndAdd(c, scalar, NEUTRAL, point)
  }

  /** `_multiply`. */
  method Multiply(c: Curve, scalar: nat, point: Point) returns (result: Point)
    requires c.p > 2
    ensures result == Product(c, scalar, point)
    ensures IsCurve(c) ==> forall a :: Represents(c, point, a) ==> Represents(c, result, Times(c, scalar, a))
  {
    hide Add, Represents, Sum, IsPrimeField, AdditionLaw;
    result := NEUTRAL;
    var remaining, doubled := scalar, point;
    while remaining > 0
      invariant DoubleAndAdd(c, remaining, result, doubled) == Product(c, scalar, point)
    {
      if remaining % 2 == 1 {
        result := Add(c, result, doubled);
      }
      doubled := Add(c, doubled, doubled);
      remaining := remaining / 2;
    }
    if IsCurve(c) {
      forall a | Represents(c, point, a) ensures Represents(c, result, Times(c, scalar, a)) {
        ProductIsMultiple(c, scalar, point, a);
      }
    }
  }

  /** The loop invariant in group terms: the answer is `result + scalar * point`. */
  lemma {:induction false} LoopMeansSum(c: Curve, scalar: nat, result: Point, point: Point, b: Affine, a: Affine)
    requires IsCurve(c) && Represents(c, result, b) && Represents(c, point, a)
    ensures Represents(c, DoubleAndAdd(c, scalar, result, point), Sum(c, b, Times(c, scalar, a)))
    decreases scalar
  {
    hide Represents, Sum, IsPrimeField, AdditionLaw, OnCurve, Add;
    OfRepresents(c, result, b);
    OfRepresents(c, point, a);
    if scalar == 0 {
      SumWithZero(c, b);
    } else {
      var half, twice := scalar / 2, Sum(c, a, a);
      AddRepresentsSum(c, point, point, a, a);
      TimesOfDouble(c, half, a);
      TimesIsOnCurve(c, 2 * half, a);
      if scalar % 2 == 1 {
        AddRepresentsSum(c, result, point, b, a);
        LoopMeansSum(c, half, Add(c, result, point), Add(c, point, point), Sum(c, b, a), twice);
        SumAssociates(c, b, a, Times(c, 2 * half, a));
        TimesOne(c, a);
        TimesOfSum(c, 1, 2 * half, a);
      } else {
        LoopMeansSum(c, half, result, Add(c, point, point), b, twice);
      }
    }
  }

  lemma NeutralIsZero(c: Curve)
    requires c.p > 2
    ensures Represents(c, NEUTRAL, ZERO)
  {
    ZeroIsOnCurve(c);
    TwoIsNonZero(c.p);
    CongRefl(c.p, 0);
    CongRefl(c.p, 1);
    assert 0 == 0 * 1 && 1 == 1 * 1 && 0 == (0 * 1) * 1;
    hide Cong, OnCurve;
  }

  /** `_multiply` computes scalar multiples, for every scalar and every representative of every point. */
  lemma ProductIsMultiple(c: Curve, scalar: nat, point: Point, a: Affine)
    requires IsCurve(c) && Represents(c, point, a)
    ensures Represents(c, Product(c, scalar, point), Times(c, scalar, a))
  {
    hide Represents, Sum, IsPrimeField, AdditionLaw, OnCurve, Add, Times;
    NeutralIsZero(c);
    OfRepresents(c, point, a);
    LoopMeansSum(c, scalar, NEUTRAL, point, ZERO, a);
    TimesIsOnCurve(c, scalar, a);
    SumWithZero(c, Times(c, scalar, a));
  }

  // ----- Equality -----

  /** A difference `u z w' - v w z'` of numerators over the common denominator. */
  lemma CrossDifference(p: int, x: int, u: int, z: int, y: int, v: int, w: int)
    requires Cong(p, x, u * z) && Cong(p, y, v * w)
    ensures Cong(p, x * w - y * z, (u - v) * (z * w))
  {
    CongScale(p, x, u * z, w);
    CongScale(p, y, v * w, z);
    CongSub(p, x * w, u * z * w, y * z, v * w * z);
    hide Cong;
    assert u * z * w == u * (z * w);
    assert v * w * z == v * (z * w) by { Associate(v, w, z); }
    assert u * (z * w) - v * (z * w) == (u - v) * (z * w);
  }

  /** One comparison of `_equal`: with `x = u z` and `y = v w` for residues `u` and `v`, the cross difference vanishes
      exactly when `u = v`. */
  lemma CrossEqual(p: int, x: int, u: int, z: int, y: int, v: int, w: int)
    requires IsPrimeField(p) && p > 2 && Cong(p, x, u * z) && Cong(p, y, v * w)
    requires !Cong(p, z, 0) && !Cong(p, w, 0) && 0 <= u < p && 0 <= v < p
    ensures (x * w - y * z) % p == 0 <==> u == v
  {
    hide Cong, IsPrimeField;
    CrossDifference(p, x, u, z, y, v, w);
    NonZeroProduct(p, z, w);
    var left, m := x * w - y * z, z * w;
    CongIsEqualResidue(p, left, 0);
    DifferenceTimes(p, left, u, v, m);
  }

  lemma DifferenceTimes(p: int, left: int, u: int, v: int, m: int)
    requires IsPrimeField(p) && p > 2 && Cong(p, left, (u - v) * m) && !Cong(p, m, 0) && 0 <= u < p && 0 <= v < p
    ensures Cong(p, left, 0) <==> u == v
  {
    hide Cong, IsPrimeField;
    if u == v {
      assert (u - v) * m == 0;
    } else {
      if Cong(p, u - v, 0) {
        CongRefl(p, v);
        CongAdd(p, u - v, 0, v, v);
        CongInRange(p, u, v);
      }
      NonZeroProduct(p, u - v, m);
      NonZeroCong(p, left, (u - v) * m);
    }
  }

  /** `_equal` decides whether two extended points stand for the same affine point. */
  lemma EqualExactlyWhenSame(c: Curve, first: Point, second: Point, a: Affine, b: Affine)
    requires IsPrimeField(c.p) && c.p > 2 && Represents(c, first, a) && Represents(c, second, b)
    ensures Equal(c, first, second) <==> a == b
  {
    hide Cong, IsPrimeField, Represents, OnCurve;
    Parts(c, first, a);
    Parts(c, second, b);
    CrossEqual(c.p, first.x, a.x, first.z, second.x, b.x, second.z);
    CrossEqual(c.p, first.y, a.y, first.z, second.y, b.y, second.z);
  }

  lemma Parts(c: Curve, q: Point, a: Affine)
    requires Represents(c, q, a)
    ensures Cong(c.p, q.x, a.x * q.z) && Cong(c.p, q.y, a.y * q.z) && !Cong(c.p, q.z, 0)
    ensures OnCurve(c, a) && 0 <= a.x < c.p && 0 <= a.y < c.p
  {
    hide Cong;
  }

  /** A point stands for one affine point only. */
  lemma RepresentsOne(c: Curve, q: Point, a: Affine, b: Affine)
    requires IsPrimeField(c.p) && c.p > 2 && Represents(c, q, a) && Represents(c, q, b)
    ensures a == b
  {
    hide Represents, IsPrimeField;
    EqualExactlyWhenSame(c, q, q, a, b);
  }

  // ----- Points of finite order -----

  /** The order of a point: its multiples vanish exactly at the multiples of the order. */
  ghost predicate HasOrder(c: Curve, a: Affine, order: nat)
    requires c.p > 2
  {
    && OnCurve(c, a) && order > 1
    && (forall n: nat :: VanishesAt(c, a, order, n))
  }

  ghost predicate VanishesAt(c: Curve, a: Affine, order: nat, n: nat)
    requires c.p > 2
  {
    Times(c, n, a) == ZERO <==> Cong(order, n, 0)
  }

  lemma OrderAt(c: Curve, a: Affine, order: nat, n: nat)
    requires c.p > 2 && HasOrder(c, a, order)
    ensures OnCurve(c, a) && order > 1 && (Times(c, n, a) == ZERO <==> Cong(order, n, 0))
  {
    hide Times, OnCurve, Cong;
    assert VanishesAt(c, a, order, n);
  }

  /** Scalars count modulo the order. */
  lemma TimesModulo(c: Curve, a: Affine, order: nat, m: nat, n: nat)
    requires IsCurve(c) && HasOrder(c, a, order) && m <= n && Cong(order, n, m)
    ensures Times(c, n, a) == Times(c, m, a)
  {
    hide Times, OnCurve, Cong, Sum, IsPrimeField, AdditionLaw, HasOrder;
    CongRefl(order, m);
    CongSub(order, n, m, m, m);
    OrderAt(c, a, order, n - m);
    TimesOfSum(c, n - m, m, a);
    TimesIsOnCurve(c, m, a);
    SumWithZero(c, Times(c, m, a));
  }

  /** Two multiples are the same point exactly when their scalars agree modulo the order. */
  lemma TimesIsInjective(c: Curve, a: Affine, order: nat, m: nat, n: nat)
    requires IsCurve(c) && HasOrder(c, a, order) && m <= n
    ensures Times(c, m, a) == Times(c, n, a) <==> Cong(order, n, m)
  {
    hide Times, OnCurve, Cong, Sum, IsPrimeField, AdditionLaw, HasOrder;
    if Times(c, m, a) == Times(c, n, a) {
      var k := Opposite(order, m);
      OrderAt(c, a, order, k + m);
      OrderAt(c, a, order, k + n);
      TimesOfSum(c, k, m, a);
      TimesOfSum(c, k, n, a);
      CongSub(order, k + n, 0, k + m, 0);
      CongRefl(order, m);
      CongAdd(order, n - m, 0, m, m);
    }
    if Cong(order, n, m) {
      TimesModulo(c, a, order, m, n);
    }
  }

  /** A multiple of `order` not below `m`, less `m`. */
  function Opposite(order: nat, m: nat): (k: nat)
    ensures Cong(order, k + m, 0) || order == 0
  {
    if order == 0 then 0
    else
      assert Cong(order, (m + 1) * order, 0) by { Witness(order, (m + 1) * order, 0, m + 1); }
      assert (m + 1) * order >= m + 1 by { MulIsProduct(m + 1, order); MulAtLeast(m + 1, order); }
      (m + 1) * order - m
  }

  lemma {:induction false} MulAtLeast(m: nat, n: nat)
    requires n > 0
    ensures Mul(m, n) >= m
    decreases m
  {
    if m > 0 {
      MulAtLeast(m - 1, n);
    }
  }
}
