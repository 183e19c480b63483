/** Points as 32 bytes: square roots in the field, and the coding of a point by its y coordinate and the parity of x. */
module PointCoding {
  import opened Prelude
  import opened PrimeField
  import opened Edwards
  import opened EdwardsGroup
  import opened LittleEndian

  /** What decoding needs of the curve: the field has p = 5 (mod 8), `i` is a root of -1, `d` is not a square, and an
      encoding has room for a residue below 2^255 and one bit. */
  ghost predicate HasCoding(c: Curve) {
    && IsCurve(c)
    && c.p % 8 == 5 && c.p < Half()
    && Cong(c.p, c.i * c.i, -1)
    && IsNoSquare(c.p, c.d)
  }

  ghost predicate IsNoSquare(p: int, d: int) {
    forall s :: !IsSquareRoot(p, s, d)
  }

  ghost predicate IsSquareRoot(p: int, s: int, d: int) {
    Cong(p, s * s, d)
  }

  function Half(): (half: nat)
    ensures half > 0
  {
    PowIsPositive(2, 255);
    Pow(2, 255)
  }

  // ----- Square roots -----

  /** The candidate root of `_recover_x`, corrected by a root of -1 when its square is not `a`. */
  function Root(c: Curve, a: nat): int
    requires c.p > 2
  {
    var x := Pow(a, (c.p + 3) / 8) % c.p;
    if IsRootOf(c.p, x, a) then x else x * c.i % c.p
  }

  /** The value whose root `_recover_x` looks for. */
  function SquareOfX(c: Curve, y: nat): (square: nat)
    requires c.p > 2
    ensures square < c.p
  {
    Quotient(c, y * y - 1, c.d * y * y + 1)
  }

  predicate IsRootOf(p: int, x: int, a: int)
    requires p > 2
  {
    (x * x - a) % p == 0
  }

  /** `_recover_x`. */
  function RecoverX(c: Curve, y: nat, sign: nat): Option<int>
    requires c.p > 2
  {
    if y >= c.p then None
    else
      var square := SquareOfX(c, y);
      if square == 0 then
        if sign != 0 then None else Some(0)
      else
        var x := Root(c, square);
        if !IsRootOf(c.p, x, square) then None
        else if x % 2 != sign then Some(c.p - x)
        else Some(x)
  }

  lemma NegativeCong(p: int, a: int, b: int)
    requires Cong(p, a, b)
    ensures Cong(p, -a, -b)
  {
    CongRefl(p, 0);
    CongSub(p, 0, 0, a, b);
  }

  lemma Fermat(p: int, a: int)
    requires IsPrimeField(p) && !Cong(p, a, 0)
    ensures p > 2 && Cong(p, Pow(a, p - 1), 1)
  {
    hide Cong, Pow;
    assert FermatAt(p, a);
  }

  /** Half the Fermat exponent gives 1 or -1. */
  lemma EulerSign(p: int, s: int, j: nat)
    requires IsPrimeField(p) && p == 8 * j + 5 && !Cong(p, s, 0)
    ensures Cong(p, Pow(s, 4 * j + 2), 1) || Cong(p, Pow(s, 4 * j + 2), -1)
  {
    hide Pow, Cong, IsPrimeField;
    var h := Pow(s, 4 * j + 2);
    PowSum(s, 4 * j + 2, 4 * j + 2);
    Fermat(p, s);
    assert 4 * j + 2 + (4 * j + 2) == p - 1;
    SquareRootsDifferBySign(p, h, 1);
  }

  /** The square of the candidate is `a` or `-a`, whenever `a` has a root at all. */
  lemma CandidateSquare(p: int, a: int, s: int, j: nat)
    requires IsPrimeField(p) && p == 8 * j + 5 && Cong(p, a, s * s) && !Cong(p, s, 0)
    ensures var x := Pow(a, j + 1) % p; Cong(p, x * x, a) || Cong(p, x * x, -a)
  {
    hide Pow, Cong, IsPrimeField;
    var x, h, q := Pow(a, j + 1) % p, Pow(s, 4 * j + 2), Pow(s * s, j + 1);
    PowCong(p, a, s * s, j + 1);
    Reduce(p, Pow(a, j + 1), q);
    CongMul(p, x, q, x, q);
    PowOfSquare(s, j + 1);
    PowSum(s, 2 * j + 2, 2 * j + 2);
    PowSum(s, 2, 4 * j + 2);
    PowTwo(s);
    assert q * q == s * s * h;
    EulerSign(p, s, j);
    CongSym(p, a, s * s);
    if Cong(p, h, 1) {
      CongScale(p, h, 1, s * s);
      CongTrans(p, x * x, s * s * h, s * s);
      CongTrans(p, x * x, s * s, a);
    } else {
      CongScale(p, h, -1, s * s);
      CongTrans(p, x * x, s * s * h, s * s * -1);
      NegativeCong(p, s * s, a);
      CongTrans(p, x * x, -(s * s), -a);
    }
  }

  lemma PowTwo(s: int)
    ensures Pow(s, 2) == s * s
  {
    assert Pow(s, 2) == s * Pow(s, 1) == s * (s * Pow(s, 0));
  }

  lemma ResidueTest(p: int, a: int, b: int)
    requires p > 2
    ensures (a - b) % p == 0 <==> Cong(p, a, b)
  {
    CongIsEqualResidue(p, a - b, 0);
    CongRefl(p, b);
    if Cong(p, a, b) {
      CongSub(p, a, b, b, b);
    }
    if Cong(p, a - b, 0) {
      CongAdd(p, a - b, 0, b, b);
    }
  }

  lemma CorrectedSquare(p: int, x: int, i: int, a: int)
    requires p > 0 && Cong(p, x * x, -a) && Cong(p, i * i, -1)
    ensures var y := x * i % p; Cong(p, y * y, a)
  {
    hide Cong;
    var y := x * i % p;
    CongResidue(p, x * i);
    CongMul(p, y, x * i, y, x * i);
    FactorZ(x, i, x, i);
    CongMul(p, x * x, -a, i * i, -1);
    assert -a * -1 == a;
    CongTrans(p, y * y, x * x * (i * i), a);
  }

  /** The root found is a root, whenever there is one. */
  lemma RootIsRoot(c: Curve, a: nat, s: int)
    requires HasCoding(c) && Cong(c.p, a, s * s) && !Cong(c.p, s, 0)
    ensures var x := Root(c, a); Cong(c.p, x * x, a)
  {
    hide Cong, Pow, IsPrimeField, AdditionLaw;
    var j := c.p / 8;
    assert c.p == 8 * j + 5;
    assert (c.p + 3) / 8 == j + 1;
    CandidateSquare(c.p, a, s, j);
    hide Root;
    var x := Pow(a, j + 1) % c.p;
    ResidueTest(c.p, x * x, a);
    if Cong(c.p, x * x, a) {
      RootIs(c, a, x, x);
    } else {
      CorrectedSquare(c.p, x, c.i, a);
      RootIs(c, a, x, x * c.i % c.p);
    }
  }

  lemma RootIs(c: Curve, a: nat, x: int, root: int)
    requires c.p > 2 && x == Pow(a, (c.p + 3) / 8) % c.p
    requires root == if IsRootOf(c.p, x, a) then x else x * c.i % c.p
    ensures Root(c, a) == root
  {
  }

  // ----- Recovering x -----

  lemma NoSquareAt(p: int, d: int, s: int)
    requires IsNoSquare(p, d)
    ensures !Cong(p, s * s, d)
  {
    hide Cong;
    assert !IsSquareRoot(p, s, d);
  }

  /** If d y^2 + 1 vanished, i / y would be a root of `d`. */
  lemma DenominatorIsNonZero(c: Curve, y: int)
    requires HasCoding(c)
    ensures !Cong(c.p, c.d * y * y + 1, 0)
  {
    hide Pow, Cong, IsPrimeField, AdditionLaw;
    if Cong(c.p, c.d * y * y + 1, 0) {
      if Cong(c.p, y, 0) {
        CongScale(c.p, y, 0, c.d * y);
        CongRefl(c.p, 1);
        CongSub(c.p, c.d * y * y + 1, 0, c.d * y * y, 0);
        TwoIsNonZero(c.p);
      } else {
        var v := Inverse(c, y);
        InverseInverts(c.p, y);
        hide Inverse;
        NoSquareAt(c.p, c.d, c.i * v);
        RootOfD(c.p, c.d, c.i, y, v);
      }
    }
  }

  lemma RootOfD(p: int, d: int, i: int, y: int, v: int)
    requires Cong(p, d * y * y + 1, 0) && Cong(p, y * v, 1) && Cong(p, i * i, -1)
    ensures Cong(p, i * v * (i * v), d)
  {
    hide Cong;
    CongRefl(p, 1);
    CongSub(p, d * y * y + 1, 0, 1, 1);
    CongSym(p, d * y * y, -1);
    CongTrans(p, i * i, -1, d * y * y);
    CongScale(p, i * i, d * y * y, v * v);
    CongMul(p, y * v, 1, y * v, 1);
    CongScale(p, y * v * (y * v), 1, d);
    FactorZ(i, v, i, v);
    Regroup(d, y, v);
    CongTrans(p, i * v * (i * v), d * y * y * (v * v), d);
  }

  lemma Regroup(d: int, y: int, v: int)
    ensures d * y * y * (v * v) == d * (y * v * (y * v))
  {
    FactorZ(y, v, y, v);
    assert d * y * y == d * (y * y);
    assert d * (y * y) * (v * v) == d * (y * y * (v * v));
  }

  lemma CurveIdentity(x: int, y: int, d: int)
    ensures y * y - 1 - x * x * (d * y * y + 1) == (y * y - x * x) - (1 + d * (x * x) * (y * y))
  {
    var xx, yy := x * x, y * y;
    assert d * y * y == d * yy;
    assert xx * (d * yy + 1) == xx * (d * yy) + xx;
    assert xx * (d * yy) == d * xx * yy by { assert xx * (d * yy) == xx * d * yy; }
  }

  lemma CongDifference(p: int, a: int, b: int)
    ensures Cong(p, a, b) <==> Cong(p, a - b, 0)
  {
    CongRefl(p, b);
    if Cong(p, a, b) {
      CongSub(p, a, b, b, b);
    }
    if Cong(p, a - b, 0) {
      CongAdd(p, a - b, 0, b, b);
    }
  }

  /** On the curve, the square of x is the quotient computed from y, and the other way round. */
  lemma CurveDeterminesSquare(c: Curve, x: int, y: nat)
    requires HasCoding(c) && 0 <= x < c.p && y < c.p
    ensures OnCurve(c, Affine(x, y)) <==> Cong(c.p, x * x, SquareOfX(c, y))
  {
    hide Pow, Cong, IsPrimeField, AdditionLaw, Quotient;
    var num, den, q := y * y - 1, c.d * y * y + 1, SquareOfX(c, y);
    DenominatorIsNonZero(c, y);
    DivideSpec(c, num, den);
    CurveIdentity(x, y, c.d);
    CongDifference(c.p, num, x * x * den);
    CongDifference(c.p, y * y - x * x, 1 + c.d * (x * x) * (y * y));
    assert OnCurve(c, Affine(x, y)) <==> Cong(c.p, num, x * x * den);
    CompareQuotient(c.p, x * x, q, den, num);
  }

  lemma CompareQuotient(p: int, a: int, q: int, den: int, num: int)
    requires IsPrimeField(p) && !Cong(p, den, 0) && Cong(p, q * den, num)
    ensures Cong(p, num, a * den) <==> Cong(p, a, q)
  {
    hide Cong, IsPrimeField;
    if Cong(p, num, a * den) {
      CongTrans(p, q * den, num, a * den);
      CongSym(p, q * den, a * den);
      Cancel(p, a, q, den);
    }
    if Cong(p, a, q) {
      CongScale(p, a, q, den);
      CongTrans(p, a * den, q * den, num);
      CongSym(p, a * den, num);
    }
  }

  /** The roots of a square, among the residues: `r` and `p - r`. */
  lemma RootsOf(p: int, x: int, r: int, q: int)
    requires IsPrimeField(p) && p > 2 && Cong(p, r * r, q) && 0 < r < p && 0 <= x < p
    ensures Cong(p, x * x, q) <==> x == r || x == p - r
  {
    hide Cong, IsPrimeField;
    CongSym(p, r * r, q);
    if Cong(p, x * x, q) {
      CongTrans(p, x * x, q, r * r);
      SquareRootsDifferBySign(p, x, r);
      if Cong(p, x, r) {
        CongInRange(p, x, r);
      } else {
        Witness(p, -r, p - r, -1);
        CongTrans(p, x, -r, p - r);
        CongInRange(p, x, p - r);
      }
    }
    if x == p - r {
      Witness(p, p - r, -r, 1);
      CongMul(p, x, -r, x, -r);
      assert -r * -r == r * r;
      CongTrans(p, x * x, r * r, q);
    }
  }

  lemma OnlyZeroSquaresToZero(p: int, x: int)
    requires IsPrimeField(p) && p > 2 && 0 <= x < p
    ensures Cong(p, x * x, 0) <==> x == 0
  {
    hide Cong;
    if Cong(p, x * x, 0) {
      assert EuclidAt(p, x, x);
      CongInRange(p, x, 0);
    }
    if x == 0 {
      CongRefl(p, 0);
    }
  }

  lemma RootInRange(c: Curve, a: nat)
    requires c.p > 2
    ensures 0 <= Root(c, a) < c.p
  {
    var x := Pow(a, (c.p + 3) / 8);
    CongResidue(c.p, x);
    CongResidue(c.p, x % c.p * c.i);
  }

  /** A non-zero quotient: the root found decides, and a missing root means there is none. */
  lemma RecoverRoot(c: Curve, y: nat, sign: nat, x: int)
    requires HasCoding(c) && sign <= 1 && y < c.p && 0 <= x < c.p && SquareOfX(c, y) != 0
    ensures RecoverX(c, y, sign) == Some(x) <==> x % 2 == sign && Cong(c.p, x * x, SquareOfX(c, y))
  {
    hide Pow, Cong, IsPrimeField, AdditionLaw, SquareOfX, Root, IsRootOf, RecoverX, HasCoding, IsCurve;
    FieldOf(c);
    var q := SquareOfX(c, y);
    var r := Root(c, q);
    RecoverXUnfolds(c, y, sign, q, r);
    RootInRange(c, q);
    RootTest(c.p, r, q);
    if Cong(c.p, r * r, q) {
      NoZeroRoot(c.p, r, q);
      RootsOf(c.p, x, r, q);
      ByParity(c.p, r, sign, x);
    } else {
      NoOtherRoot(c, q, x);
    }
  }

  lemma FieldOf(c: Curve)
    requires HasCoding(c)
    ensures c.p > 2 && c.p % 2 == 1 && IsPrimeField(c.p)
  {
    hide Cong, IsPrimeField, AdditionLaw, Half;
    assert c.p == c.p / 8 * 8 + 5;
  }

  lemma RecoverXUnfolds(c: Curve, y: nat, sign: nat, q: nat, r: int)
    requires c.p > 2 && y < c.p && q == SquareOfX(c, y) && q != 0 && r == Root(c, q)
    ensures RecoverX(c, y, sign)
            == if !IsRootOf(c.p, r, q) then None else if r % 2 != sign then Some(c.p - r) else Some(r)
  {
    hide SquareOfX, Root, IsRootOf;
  }

  /** Of the two roots r and p - r of an odd p, parity picks one. */
  lemma ByParity(p: int, r: int, sign: nat, x: int)
    requires p % 2 == 1 && sign <= 1
    ensures (if r % 2 != sign then p - r else r) == x <==> x % 2 == sign && (x == r || x == p - r)
  {
    OtherParity(p, r);
    assert x == r || x == p - r ==> (x % 2 == sign <==> (x == r <==> r % 2 == sign)) || p - r == r;
  }

  lemma OtherParity(p: int, r: int)
    requires p % 2 == 1
    ensures (p - r) % 2 == 1 - r % 2
  {
    var e := r % 2;
    assert p - r == 2 * (p / 2 - r / 2) + (1 - e);
  }

  lemma RootTest(p: int, x: int, a: int)
    requires p > 2
    ensures IsRootOf(p, x, a) <==> Cong(p, x * x, a)
  {
    hide Cong;
    ResidueTest(p, x * x, a);
  }

  /** When the candidate is no root, there is none. */
  lemma NoOtherRoot(c: Curve, q: nat, x: int)
    requires HasCoding(c) && 0 < q < c.p && 0 <= x < c.p && !Cong(c.p, Root(c, q) * Root(c, q), q)
    ensures !Cong(c.p, x * x, q)
  {
    hide Pow, Cong, IsPrimeField, AdditionLaw, Root;
    if Cong(c.p, x * x, q) {
      NoZeroRoot(c.p, x, q);
      CongIsEqualResidue(c.p, x, 0);
      CongSym(c.p, x * x, q);
      RootIsRoot(c, q, x);
    }
  }

  lemma NoZeroRoot(p: int, r: int, q: int)
    requires p > 2 && Cong(p, r * r, q) && 0 < q < p && 0 <= r < p
    ensures r != 0 && r % p != 0
  {
    if r == 0 {
      CongInRange(p, 0, q);
    }
    CongResidue(p, r);
    CongInRange(p, r % p, r);
  }

  /** `_recover_x` is exact: it returns the residue x of the wanted parity that puts (x, y) on the curve, when there is
      one, and nothing otherwise. */
  lemma RecoverXIsExact(c: Curve, y: nat, sign: nat, x: int)
    requires HasCoding(c) && sign <= 1
    ensures RecoverX(c, y, sign) == Some(x) <==> x % 2 == sign && OnCurve(c, Affine(x, y))
  {
    hide Pow, Cong, IsPrimeField, AdditionLaw, SquareOfX, Root, IsRootOf;
    if y < c.p {
      RootInRange(c, SquareOfX(c, y));
      if 0 <= x < c.p {
        CurveDeterminesSquare(c, x, y);
        if SquareOfX(c, y) == 0 {
          OnlyZeroSquaresToZero(c.p, x);
        } else {
          RecoverRoot(c, y, sign, x);
        }
      } else if RecoverX(c, y, sign).Some? {
        RecoverXInRange(c, y, sign);
      }
    }
  }

  lemma RecoverXInRange(c: Curve, y: nat, sign: nat)
    requires HasCoding(c) && RecoverX(c, y, sign).Some?
    ensures 0 <= RecoverX(c, y, sign).value < c.p
  {
    hide Pow, Cong, IsPrimeField, AdditionLaw, SquareOfX, Root, IsRootOf;
    var q := SquareOfX(c, y);
    RootInRange(c, q);
    RootTest(c.p, Root(c, q), q);
    if q != 0 && IsRootOf(c.p, Root(c, q), q) {
      NoZeroRoot(c.p, Root(c, q), q);
    }
  }

  // ----- The coding -----

  /** The y coordinate, with the top bit set when x is odd. */
  function Packed(a: Affine): nat
    requires a.y >= 0
  {
    if a.x % 2 == 1 then a.y + Half() else a.y
  }

  /** What a point is written as: its y coordinate and, in the top bit, the parity of its x. */
  function Encode(a: Affine): seq<Byte>
    requires a.y >= 0
  {
    ToBytes(Packed(a), 32)
  }

  /** `_compress`. The `|` of the source joins a number below 2^255 to that bit, so it is a sum. */
  function Compress(c: Curve, q: Point): seq<Byte>
    requires c.p > 2
  {
    Encode(Affine(Quotient(c, q.x, q.z), Quotient(c, q.y, q.z)))
  }

  /** `_decompress`. */
  function Decompress(c: Curve, encoded: seq<Byte>): Option<Point>
    requires c.p > 2
  {
    if |encoded| != 32 then None
    else
      var n := FromBytes(encoded);
      var sign, y := if n < Half() then 0 else 1, if n < Half() then n else n - Half();
      match RecoverX(c, y, sign)
      case None => None
      case Some(x) => Some(Point(x, y, 1, x * y % c.p))
  }

  /** The point `_decompress` returns for an affine one. */
  function Standard(c: Curve, a: Affine): Point
    requires c.p > 2
  {
    Point(a.x, a.y, 1, a.x * a.y % c.p)
  }

  lemma StandardRepresents(c: Curve, a: Affine)
    requires c.p > 2 && OnCurve(c, a)
    ensures Represents(c, Standard(c, a), a)
  {
    hide OnCurve, Cong;
    TwoIsNonZero(c.p);
    CongRefl(c.p, a.x);
    CongRefl(c.p, a.y);
    CongResidue(c.p, a.x * a.y);
    var xy := a.x * a.y;
    assert a.x * 1 == a.x && a.y * 1 == a.y && xy * 1 == xy;
  }

  lemma CodeRange(bytes: seq<Byte>)
    requires |bytes| == 32
    ensures FromBytes(bytes) < 2 * Half()
  {
    hide Pow;
    FromBytesIsBounded(bytes);
    PowersOf256(32);
    DoubleHalf();
  }

  lemma DoubleHalf()
    ensures Pow(2, 256) == 2 * Half()
  {
    hide Pow;
    PowSum(2, 1, 255);
    PowOne(2);
  }

  lemma PowOne(b: int)
    ensures Pow(b, 1) == b
  {
    assert Pow(b, 1) == b * Pow(b, 0);
  }

  /** The 32 octets are y, least significant first, and the parity of x in the highest bit. */
  lemma EncodeFits(a: Affine)
    requires 0 <= a.y < Half()
    ensures FromBytes(Encode(a)) == Packed(a) && |Encode(a)| == 32
    ensures FromBytes(Encode(a)) == a.y + (if a.x % 2 == 1 then Pow(2, 255) else 0)
  {
    hide Pow;
    PowersOf256(32);
    DoubleHalf();
    FromBytesInvertsToBytes(Packed(a), 32);
  }

  /** `_decompress` of a point's encoding is that point. */
  lemma DecompressInvertsEncode(c: Curve, a: Affine)
    requires HasCoding(c) && OnCurve(c, a)
    ensures Decompress(c, Encode(a)) == Some(Standard(c, a))
  {
    hide Cong, IsPrimeField, AdditionLaw, RecoverX, Encode, Half;
    EncodeFits(a);
    RecoverXIsExact(c, a.y, a.x % 2, a.x);
  }

  /** What `_decompress` accepts is the encoding of a curve point, and it returns that point: no other string decodes. */
  lemma DecompressIsExact(c: Curve, encoded: seq<Byte>, q: Point)
    requires HasCoding(c) && Decompress(c, encoded) == Some(q)
    ensures var a := Affine(q.x, q.y); OnCurve(c, a) && q == Standard(c, a) && encoded == Encode(a)
  {
    hide Cong, IsPrimeField, AdditionLaw, RecoverX, Half, OnCurve, Decompress, Standard, FromBytes, ToBytes;
    DecompressParts(c, encoded, q);
    CodeRange(encoded);
    var n := FromBytes(encoded);
    RecoverXIsExact(c, q.y, if n < Half() then 0 else 1, q.x);
    ToBytesInvertsFromBytes(encoded);
  }

  lemma DecompressParts(c: Curve, encoded: seq<Byte>, q: Point)
    requires c.p > 2 && Decompress(c, encoded) == Some(q)
    ensures q == Standard(c, Affine(q.x, q.y)) && |encoded| == 32
    ensures var n := FromBytes(encoded); q.y == if n < Half() then n else n - Half()
    ensures q.y >= 0 && RecoverX(c, q.y, if FromBytes(encoded) < Half() then 0 else 1) == Some(q.x)
  {
    hide RecoverX, Half, FromBytes;
  }

  /** `_compress` writes the affine point, whatever representative it is given. */
  lemma CompressIsEncode(c: Curve, q: Point, a: Affine)
    requires HasCoding(c) && Represents(c, q, a)
    ensures Compress(c, q) == Encode(a)
  {
    hide Cong, IsPrimeField, AdditionLaw, Represents, OnCurve, Quotient, Encode;
    Parts(c, q, a);
    QuotientIs(c, q.x, q.z, a.x);
    QuotientIs(c, q.y, q.z, a.y);
  }

  lemma QuotientIs(c: Curve, num: int, den: int, x: int)
    requires IsPrimeField(c.p) && c.p > 2 && !Cong(c.p, den, 0) && Cong(c.p, num, x * den) && 0 <= x < c.p
    ensures Quotient(c, num, den) == x
  {
    hide Cong, IsPrimeField;
    DivideSpec(c, num, den);
    var r := Quotient(c, num, den);
    assert 0 <= r < c.p by { QuotientInRange(c, num, den); }
    CongTrans(c.p, r * den, num, x * den);
    Cancel(c.p, r, x, den);
    CongInRange(c.p, r, x);
  }

  lemma QuotientInRange(c: Curve, num: int, den: int)
    requires c.p > 2
    ensures 0 <= Quotient(c, num, den) < c.p
  {
    CongResidue(c.p, num * Inverse(c, den));
  }

  /** Section 5.1.2 and 5.1.3 of RFC 8032 together: decoding an encoded point gives an equal point. */
  lemma CompressRoundTrip(c: Curve, q: Point, a: Affine)
    requires HasCoding(c) && Represents(c, q, a)
    ensures var decoded := Decompress(c, Compress(c, q)); decoded.Some? && Equal(c, decoded.value, q)
  {
    hide Cong, IsPrimeField, AdditionLaw, Represents, OnCurve, Equal, Decompress, Compress, Standard, Encode;
    OfRepresents(c, q, a);
    CompressIsEncode(c, q, a);
    assert a.y >= 0 by { Parts(c, q, a); }
    DecompressInvertsEncode(c, a);
    StandardRepresents(c, a);
    EqualExactlyWhenSame(c, Standard(c, a), q, a, a);
  }

  /** And encoding a decoded string gives the string back: every point has one encoding. */
  lemma DecompressRoundTrip(c: Curve, encoded: seq<Byte>, q: Point)
    requires HasCoding(c) && Decompress(c, encoded) == Some(q)
    ensures Compress(c, q) == encoded
  {
    hide Cong, IsPrimeField, AdditionLaw, Represents, OnCurve, Decompress, Compress, Standard, Encode;
    DecompressIsExact(c, encoded, q);
    StandardRepresents(c, Affine(q.x, q.y));
    CompressIsEncode(c, q, Affine(q.x, q.y));
  }

  lemma EncodeIsInjective(c: Curve, a: Affine, b: Affine)
    requires HasCoding(c) && OnCurve(c, a) && OnCurve(c, b) && Encode(a) == Encode(b)
    ensures a == b
  {
    hide Cong, IsPrimeField, AdditionLaw, Decompress, Encode;
    DecompressInvertsEncode(c, a);
    DecompressInvertsEncode(c, b);
  }
}
