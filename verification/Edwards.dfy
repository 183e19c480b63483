/** Twisted Edwards curves with a = -1: the affine addition law, and the extended coordinates that compute it without
    dividing. */
module Edwards {
  import opened PrimeField

  /** Extended homogeneous coordinates. */
  datatype Point = Point(x: int, y: int, z: int, t: int)

  /** The field, the curve constant, a square root of -1, and the base point with its order. */
  datatype Curve = Curve(p: int, d: int, i: int, base: Point, order: nat)

  datatype Affine = Affine(x: int, y: int)

  const NEUTRAL := Point(0, 1, 1, 0)
  const ZERO := Affine(0, 1)

  /** `_inverse`. */
  function Inverse(c: Curve, value: int): int
    requires c.p > 2
  {
    Pow(value, c.p - 2) % c.p
  }

  function Quotient(c: Curve, num: int, den: int): int
    requires c.p > 2
  {
    num * Inverse(c, den) % c.p
  }

  ghost predicate OnCurve(c: Curve, a: Affine) {
    && 0 <= a.x < c.p && 0 <= a.y < c.p
    && Cong(c.p, a.y * a.y - a.x * a.x, 1 + c.d * (a.x * a.x) * (a.y * a.y))
  }

  /** The product `d x1 x2 y1 y2` of the addition law. */
  function Cross(c: Curve, a: Affine, b: Affine): int {
    c.d * (a.x * a.y) * (b.x * b.y)
  }

  function XTerm(a: Affine, b: Affine): int {
    a.x * b.y + a.y * b.x
  }

  function YTerm(a: Affine, b: Affine): int {
    a.y * b.y + a.x * b.x
  }

  /** The affine addition law. */
  function Sum(c: Curve, a: Affine, b: Affine): Affine
    requires c.p > 2
  {
    Affine(Quotient(c, XTerm(a, b), 1 + Cross(c, a, b)), Quotient(c, YTerm(a, b), 1 - Cross(c, a, b)))
  }

  /** What is assumed of the affine law: it is complete, closed and associative. */
  ghost predicate AdditionLaw(c: Curve)
    requires c.p > 2
  {
    (forall a, b :: IsClosedAt(c, a, b)) && (forall a, b, e :: AssociatesAt(c, a, b, e))
  }

  ghost predicate IsClosedAt(c: Curve, a: Affine, b: Affine)
    requires c.p > 2
  {
    OnCurve(c, a) && OnCurve(c, b) ==>
      !Cong(c.p, 1 + Cross(c, a, b), 0) && !Cong(c.p, 1 - Cross(c, a, b), 0) && OnCurve(c, Sum(c, a, b))
  }

  ghost predicate AssociatesAt(c: Curve, a: Affine, b: Affine, e: Affine)
    requires c.p > 2
  {
    OnCurve(c, a) && OnCurve(c, b) && OnCurve(c, e) ==> Sum(c, Sum(c, a, b), e) == Sum(c, a, Sum(c, b, e))
  }

  /** The four terms `e`, `f`, `g` and `h` of `_add`. */
  function Terms(c: Curve, first: Point, second: Point): (int, int, int, int)
    requires c.p > 2
  {
    var a := (first.y - first.x) * (second.y - second.x) % c.p;
    var b := (first.y + first.x) * (second.y + second.x) % c.p;
    var s := 2 * first.t * second.t * c.d % c.p;
    var w := 2 * first.z * second.z % c.p;
    (b - a, w - s, w + s, b + a)
  }

  /** `_add`. */
  function Add(c: Curve, first: Point, second: Point): Point
    requires c.p > 2
  {
    var (e, f, g, h) := Terms(c, first, second);
    Point(e * f % c.p, g * h % c.p, f * g % c.p, e * h % c.p)
  }

  /** `_equal`. */
  predicate Equal(c: Curve, first: Point, second: Point)
    requires c.p > 2
  {
    && (first.x * second.z - second.x * first.z) % c.p == 0
    && (first.y * second.z - second.y * first.z) % c.p == 0
  }

  /** The extended point stands for the affine one: X = xZ, Y = yZ, T = xyZ, with Z invertible. */
  ghost predicate Represents(c: Curve, q: Point, a: Affine) {
    && OnCurve(c, a)
    && Cong(c.p, q.x, a.x * q.z) && Cong(c.p, q.y, a.y * q.z) && Cong(c.p, q.t, (a.x * a.y) * q.z)
    && !Cong(c.p, q.z, 0)
  }

  // ----- The extended addition computes the affine law -----

  lemma FactorZ(u: int, z: int, v: int, w: int)
    ensures (u * z) * (v * w) == u * v * (z * w)
  {
    assert (u * z) * (v * w) == u * (z * (v * w)) == u * ((z * v) * w) == u * ((v * z) * w) == u * (v * (z * w));
  }

  /** Products of multiples of z and w are multiples of zw. */
  lemma ProductCong(p: int, a: int, u: int, z: int, b: int, v: int, w: int)
    requires p > 0 && Cong(p, a, u * z) && Cong(p, b, v * w)
    ensures Cong(p, a * b, u * v * (z * w))
    ensures Cong(p, (a * b) % p, u * v * (z * w))
  {
    CongMul(p, a, u * z, b, v * w);
    FactorZ(u, z, v, w);
    Reduce(p, a * b, u * v * (z * w));
  }

  lemma Reduce(p: int, u: int, v: int)
    requires p > 0 && Cong(p, u, v)
    ensures Cong(p, u % p, v)
  {
    CongResidue(p, u);
    CongTrans(p, u % p, u, v);
  }

  /** Y - X and Y + X of a point standing for (x, y) are (y - x) Z and (y + x) Z. */
  lemma SumAndDifference(c: Curve, q: Point, a: Affine)
    requires Represents(c, q, a)
    ensures Cong(c.p, q.y - q.x, (a.y - a.x) * q.z)
    ensures Cong(c.p, q.y + q.x, (a.y + a.x) * q.z)
  {
    hide Cong, OnCurve;
    CongSub(c.p, q.y, a.y * q.z, q.x, a.x * q.z);
    CongAdd(c.p, q.y, a.y * q.z, q.x, a.x * q.z);
    assert a.y * q.z - a.x * q.z == (a.y - a.x) * q.z;
    assert a.y * q.z + a.x * q.z == (a.y + a.x) * q.z;
  }

  lemma Expand(x: int, y: int, u: int, v: int, m: int)
    ensures (y + x) * (v + u) * m - (y - x) * (v - u) * m == 2 * m * (x * v + y * u)
    ensures (y + x) * (v + u) * m + (y - x) * (v - u) * m == 2 * m * (y * v + x * u)
  {
    assert (y + x) * (v + u) == y * v + y * u + x * v + x * u;
    assert (y - x) * (v - u) == y * v - y * u - x * v + x * u;
    var s, d := y * v + x * u, y * u + x * v;
    assert (s + d) * m - (s - d) * m == 2 * m * d;
    assert (s + d) * m + (s - d) * m == 2 * m * s;
  }

  /** `e` and `h` of `_add`. */
  lemma NumeratorTerms(c: Curve, q: Point, r: Point, a: Affine, b: Affine)
    requires c.p > 2 && Represents(c, q, a) && Represents(c, r, b)
    ensures Cong(c.p, Terms(c, q, r).0, 2 * (q.z * r.z) * XTerm(a, b))
    ensures Cong(c.p, Terms(c, q, r).3, 2 * (q.z * r.z) * YTerm(a, b))
  {
    hide Cong, Represents, XTerm, YTerm, Terms;
    FactorsOf(c, q, r, a, b);
    var left, right := (q.y - q.x) * (r.y - r.x) % c.p, (q.y + q.x) * (r.y + r.x) % c.p;
    var m := q.z * r.z;
    var l, t := (a.y - a.x) * (b.y - b.x) * m, (a.y + a.x) * (b.y + b.x) * m;
    CongSub(c.p, right, t, left, l);
    CongAdd(c.p, right, t, left, l);
    ExpandTerms(a, b, m);
    TermsAre(c, q, r);
  }

  lemma TermsAre(c: Curve, q: Point, r: Point)
    requires c.p > 2
    ensures var left, right := (q.y - q.x) * (r.y - r.x) % c.p, (q.y + q.x) * (r.y + r.x) % c.p;
            Terms(c, q, r).0 == right - left && Terms(c, q, r).3 == right + left
  {
  }

  lemma ExpandTerms(a: Affine, b: Affine, m: int)
    ensures (a.y + a.x) * (b.y + b.x) * m - (a.y - a.x) * (b.y - b.x) * m == 2 * m * XTerm(a, b)
    ensures (a.y + a.x) * (b.y + b.x) * m + (a.y - a.x) * (b.y - b.x) * m == 2 * m * YTerm(a, b)
  {
    Expand(a.x, a.y, b.x, b.y, m);
  }

  /** `a` and `b` of `_add`. */
  lemma FactorsOf(c: Curve, q: Point, r: Point, a: Affine, b: Affine)
    requires c.p > 2 && Represents(c, q, a) && Represents(c, r, b)
    ensures Cong(c.p, (q.y - q.x) * (r.y - r.x) % c.p, (a.y - a.x) * (b.y - b.x) * (q.z * r.z))
    ensures Cong(c.p, (q.y + q.x) * (r.y + r.x) % c.p, (a.y + a.x) * (b.y + b.x) * (q.z * r.z))
  {
    hide Cong, Represents;
    SumAndDifference(c, q, a);
    SumAndDifference(c, r, b);
    ProductCong(c.p, q.y - q.x, a.y - a.x, q.z, r.y - r.x, b.y - b.x, r.z);
    ProductCong(c.p, q.y + q.x, a.y + a.x, q.z, r.y + r.x, b.y + b.x, r.z);
  }

  lemma Rearrange(t: int, u: int, d: int, v: int, w: int, m: int)
    ensures 2 * d * (t * u) == 2 * t * u * d
    ensures 2 * d * (v * w * m) == 2 * m * (d * v * w)
  {
    assert d * (t * u) == t * u * d;
    assert d * (v * w * m) == (d * (v * w)) * m == m * (d * (v * w));
    assert d * (v * w) == d * v * w;
  }

  /** `c` of `_add`. */
  lemma CrossTerm(c: Curve, q: Point, r: Point, a: Affine, b: Affine)
    requires c.p > 2 && Represents(c, q, a) && Represents(c, r, b)
    ensures Cong(c.p, 2 * q.t * r.t * c.d % c.p, 2 * (q.z * r.z) * Cross(c, a, b))
  {
    hide Cong, OnCurve;
    var u, v, m := a.x * a.y, b.x * b.y, q.z * r.z;
    ProductCong(c.p, q.t, u, q.z, r.t, v, r.z);
    CongScale(c.p, q.t * r.t, u * v * m, 2 * c.d);
    Rearrange(q.t, r.t, c.d, u, v, m);
    Reduce(c.p, 2 * q.t * r.t * c.d, 2 * m * Cross(c, a, b));
  }

  /** `f` and `g` of `_add`. */
  lemma DenominatorTerms(c: Curve, q: Point, r: Point, a: Affine, b: Affine)
    requires c.p > 2 && Represents(c, q, a) && Represents(c, r, b)
    ensures Cong(c.p, Terms(c, q, r).1, 2 * (q.z * r.z) * (1 - Cross(c, a, b)))
    ensures Cong(c.p, Terms(c, q, r).2, 2 * (q.z * r.z) * (1 + Cross(c, a, b)))
  {
    hide Cong, Represents, Cross;
    var m, x := q.z * r.z, Cross(c, a, b);
    CrossTerm(c, q, r, a, b);
    assert 2 * q.z * r.z == 2 * m;
    CongRefl(c.p, 2 * m);
    Reduce(c.p, 2 * m, 2 * m);
    var s, w := 2 * q.t * r.t * c.d % c.p, 2 * q.z * r.z % c.p;
    CongSub(c.p, w, 2 * m, s, 2 * m * x);
    CongAdd(c.p, w, 2 * m, s, 2 * m * x);
    Distribute(2 * m, x);
  }

  lemma Distribute(k: int, x: int)
    ensures k - k * x == k * (1 - x) && k + k * x == k * (1 + x)
  {
  }

  lemma Associate(a: int, b: int, m: int)
    ensures a * b * m == a * (m * b)
  {
    assert a * b * m == a * (b * m) == a * (m * b);
  }

  /** A quotient, from an inverse of the denominator. */
  lemma DivideBy(p: int, num: int, den: int, v: int)
    requires p > 0 && Cong(p, den * v, 1)
    ensures Cong(p, num * v % p * den, num)
  {
    hide Cong;
    var u := num * v;
    Reduce(p, u, u) by { CongRefl(p, u); }
    var r := u % p;
    CongScale(p, r, u, den);
    Associate(num, v, den);
    CongScale(p, den * v, 1, num);
    CongTrans(p, r * den, num * (den * v), num);
  }

  lemma DivideSpec(c: Curve, num: int, den: int)
    requires IsPrimeField(c.p) && !Cong(c.p, den, 0)
    ensures Cong(c.p, Quotient(c, num, den) * den, num)
  {
    InverseInverts(c.p, den);
    hide IsPrimeField, Cong, Pow;
    DivideBy(c.p, num, den, Inverse(c, den));
  }

  lemma NonZeroProduct(p: int, a: int, b: int)
    requires IsPrimeField(p) && !Cong(p, a, 0) && !Cong(p, b, 0)
    ensures !Cong(p, a * b, 0)
  {
    hide Cong;
    assert EuclidAt(p, a, b);
  }

  lemma TwoIsNonZero(p: int)
    requires p > 2
    ensures !Cong(p, 2, 0) && !Cong(p, 1, 0)
  {
    CongIsEqualResidue(p, 2, 0);
    CongIsEqualResidue(p, 1, 0);
  }

  /** One coordinate of `_add`: with `m = rk` and `n = sk`, where `r` is `w` times `uv / s`, the product is `w` times
      the third coordinate `z`, itself `uv` times `kk`. */
  lemma Coordinate(p: int, m: int, n: int, r: int, s: int, k: int, uv: int, w: int, z: int)
    requires p > 0 && Cong(p, m, r * k) && Cong(p, n, s * k) && Cong(p, z, uv * (k * k)) && Cong(p, w * uv, r * s)
    ensures Cong(p, m * n % p, w * z)
  {
    hide Cong;
    ProductCong(p, m, r, k, n, s, k);
    CongScale(p, w * uv, r * s, k * k);
    CongScale(p, z, uv * (k * k), w);
    Reassociate(w, uv, k * k);
    Chain(p, m * n % p, r * s * (k * k), w * uv * (k * k), w * z) by {
      CongSym(p, w * z, w * uv * (k * k));
    }
  }

  lemma Reassociate(w: int, u: int, m: int)
    ensures w * (u * m) == w * u * m
  {
  }

  /** `x uv = au` and `y uv = bv` and `xy uv = ab`, when `xv = a` and `yu = b`. */
  lemma Quotients(p: int, a: int, b: int, u: int, v: int, x: int, y: int)
    requires Cong(p, x * v, a) && Cong(p, y * u, b)
    ensures Cong(p, x * (u * v), a * u) && Cong(p, y * (u * v), v * b) && Cong(p, x * y * (u * v), a * b)
  {
    hide Cong;
    CongScale(p, x * v, a, u);
    CongScale(p, y * u, b, v);
    CongMul(p, x * v, a, y * u, b);
    assert x * v * u == x * (u * v) by { Associate(x, v, u); }
    assert v * (y * u) == y * (u * v) by { Associate(y, u, v); assert v * (y * u) == (y * u) * v; assert v * u == u * v; }
    FactorZ(x, v, y, u);
    assert v * u == u * v;
  }

  /** The coordinates of `_add`, from congruences of its four terms: `(ef, gh, fg, eh)` stands for `(x, y)` when
      `e = ka`, `h = kb`, `f = ku`, `g = kv` with `xv = a` and `yu = b`. */
  lemma Products(p: int, e: int, f: int, g: int, h: int, k: int, a: int, b: int, u: int, v: int, x: int, y: int)
    requires p > 0
    requires Cong(p, e, a * k) && Cong(p, h, b * k) && Cong(p, f, u * k) && Cong(p, g, v * k)
    requires Cong(p, x * v, a) && Cong(p, y * u, b)
    ensures var z := f * g % p;
            && Cong(p, e * f % p, x * z) && Cong(p, g * h % p, y * z) && Cong(p, e * h % p, (x * y) * z)
            && Cong(p, z, u * v * (k * k))
  {
    hide Cong;
    ProductCong(p, f, u, k, g, v, k);
    Quotients(p, a, b, u, v, x, y);
    var z := f * g % p;
    Coordinate(p, e, f, a, u, k, u * v, x, z);
    Coordinate(p, g, h, v, b, k, u * v, y, z);
    Coordinate(p, e, h, a, b, k, u * v, x * y, z);
  }

  /** `left = m`, `right = m` up to symmetry, `right = end`: so `left = end`. */
  lemma Chain(p: int, left: int, m: int, right: int, end: int)
    requires Cong(p, left, m) && Cong(p, right, m) && Cong(p, right, end)
    ensures Cong(p, left, end)
  {
    CongSym(p, right, m);
    CongTrans(p, left, m, right);
    CongTrans(p, left, right, end);
  }

  lemma NonZeroFactors(p: int, u: int, v: int, m: int)
    requires IsPrimeField(p) && !Cong(p, u, 0) && !Cong(p, v, 0) && !Cong(p, m, 0)
    ensures !Cong(p, u * v * (2 * m * (2 * m)), 0)
  {
    TwoIsNonZero(p);
    NonZeroProduct(p, 2, m);
    NonZeroProduct(p, 2 * m, 2 * m);
    NonZeroProduct(p, u, v);
    NonZeroProduct(p, u * v, 2 * m * (2 * m));
  }

  /** The affine sum, as two quotients. */
  lemma SumDivides(c: Curve, a: Affine, b: Affine)
    requires IsPrimeField(c.p) && !Cong(c.p, 1 + Cross(c, a, b), 0) && !Cong(c.p, 1 - Cross(c, a, b), 0)
    ensures var x := Cross(c, a, b);
            && Cong(c.p, Sum(c, a, b).x * (1 + x), XTerm(a, b))
            && Cong(c.p, Sum(c, a, b).y * (1 - x), YTerm(a, b))
  {
    hide Quotient, Cross, Cong, IsPrimeField, XTerm, YTerm;
    var x := Cross(c, a, b);
    DivideSpec(c, XTerm(a, b), 1 + x);
    DivideSpec(c, YTerm(a, b), 1 - x);
  }

  /** `_add` computes the affine sum, for all curve points and all representatives: the invariant T = XY/Z included. */
  lemma AddRepresentsSum(c: Curve, q: Point, r: Point, a: Affine, b: Affine)
    requires c.p > 2 && IsPrimeField(c.p) && AdditionLaw(c)
    requires Represents(c, q, a) && Represents(c, r, b)
    ensures Represents(c, Add(c, q, r), Sum(c, a, b))
  {
    hide Cong, IsPrimeField, AdditionLaw, OnCurve, Cross, Sum, Represents, Terms, XTerm, YTerm;
    var x, m, n := Cross(c, a, b), q.z * r.z, Sum(c, a, b);
    var (e, f, g, h) := Terms(c, q, r);
    OfRepresents(c, q, a);
    OfRepresents(c, r, b);
    LawHolds(c, a, b);
    NumeratorTerms(c, q, r, a, b);
    DenominatorTerms(c, q, r, a, b);
    SumDivides(c, a, b);
    NonZeroProduct(c.p, q.z, r.z);
    NonZeroFactors(c.p, 1 - x, 1 + x, m);
    Assemble(c.p, e, f, g, h, m, XTerm(a, b), YTerm(a, b), x, n.x, n.y);
    Introduce(c, Add(c, q, r), n);
  }

  lemma LawHolds(c: Curve, a: Affine, b: Affine)
    requires c.p > 2 && AdditionLaw(c) && OnCurve(c, a) && OnCurve(c, b)
    ensures var x := Cross(c, a, b); !Cong(c.p, 1 + x, 0) && !Cong(c.p, 1 - x, 0) && OnCurve(c, Sum(c, a, b))
  {
    hide Cross, Sum, Cong, OnCurve;
    assert IsClosedAt(c, a, b);
  }

  lemma OfRepresents(c: Curve, q: Point, a: Affine)
    requires Represents(c, q, a)
    ensures !Cong(c.p, q.z, 0) && OnCurve(c, a)
  {
    hide OnCurve, Cong;
  }

  lemma Introduce(c: Curve, q: Point, a: Affine)
    requires OnCurve(c, a) && !Cong(c.p, q.z, 0)
    requires Cong(c.p, q.x, a.x * q.z) && Cong(c.p, q.y, a.y * q.z) && Cong(c.p, q.t, (a.x * a.y) * q.z)
    ensures Represents(c, q, a)
  {
  }

  lemma Assemble(p: int, e: int, f: int, g: int, h: int, m: int, a: int, b: int, x: int, nx: int, ny: int)
    requires p > 0
    requires Cong(p, e, 2 * m * a) && Cong(p, h, 2 * m * b) && Cong(p, f, 2 * m * (1 - x)) && Cong(p, g, 2 * m * (1 + x))
    requires Cong(p, nx * (1 + x), a) && Cong(p, ny * (1 - x), b)
    requires !Cong(p, (1 - x) * (1 + x) * (2 * m * (2 * m)), 0)
    ensures var z := f * g % p;
            && Cong(p, e * f % p, nx * z) && Cong(p, g * h % p, ny * z) && Cong(p, e * h % p, (nx * ny) * z)
            && !Cong(p, z, 0)
  {
    hide Cong;
    Commute(2 * m, a);
    Commute(2 * m, b);
    Commute(2 * m, 1 - x);
    Commute(2 * m, 1 + x);
    Products(p, e, f, g, h, 2 * m, a, b, 1 - x, 1 + x, nx, ny);
    NonZeroCong(p, f * g % p, (1 - x) * (1 + x) * (2 * m * (2 * m)));
  }

  lemma Commute(a: int, b: int)
    ensures a * b == b * a
  {
  }

  lemma NonZeroCong(p: int, a: int, b: int)
    requires Cong(p, a, b) && !Cong(p, b, 0)
    ensures !Cong(p, a, 0)
  {
    CongSym(p, a, b);
    if Cong(p, a, 0) {
      CongTrans(p, b, a, 0);
    }
  }
}
