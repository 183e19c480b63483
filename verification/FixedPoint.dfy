/** The kernel's decimals: signed 128-bit integers counted in units of 10^-8, multiplied and divided toward zero. */
module FixedPoint {
  import opened Prelude

  const SCALE := 100_000_000

  predicate FitsI128(n: int) {
    -0x8000_0000_0000_0000_0000_0000_0000_0000 <= n <= 0x7fff_ffff_ffff_ffff_ffff_ffff_ffff_ffff
  }

  /** Division toward zero. */
  function Quotient(a: int, b: int): int
    requires b != 0
  {
    if (a >= 0) == (b > 0) then Magnitude(a) / Magnitude(b) else -(Magnitude(a) / Magnitude(b))
  }

  function Magnitude(a: int): nat {
    if a >= 0 then a else -a
  }

  /** `Decimal::checked_mul`. */
  function CheckedMul(a: int, b: int): Option<int> {
    if FitsI128(a * b) then Some(Quotient(a * b, SCALE)) else None
  }

  /** `Decimal::checked_div`. */
  function CheckedDiv(a: int, b: int): Option<int> {
    if b == 0 || !FitsI128(a * SCALE) || !FitsI128(Quotient(a * SCALE, b)) then None else Some(Quotient(a * SCALE, b))
  }

  ghost predicate Divides(b: int, a: int) {
    exists k: int :: a == b * k
  }

  /** What division toward zero leaves out. */
  function Rest(a: int, b: int): int
    requires b != 0
  {
    a - b * Quotient(a, b)
  }

  /** It is smaller than the divisor, has the sign of the dividend, and is nothing exactly when the divisor divides. */
  lemma QuotientLeaves(a: int, b: int)
    requires b > 0
    ensures a >= 0 ==> 0 <= Rest(a, b) < b
    ensures a <= 0 ==> -b < Rest(a, b) <= 0
    ensures Rest(a, b) == 0 <==> Divides(b, a)
  {
    hide Divides;
    NatQuotient(Magnitude(a), b);
    var q := Magnitude(a) / b;
    if a < 0 {
      assert Quotient(a, b) == -q;
      NegativeFactor(b, q);
    }
    RestOfMultiple(a, b, Quotient(a, b));
  }

  lemma NatQuotient(n: nat, b: int)
    requires b > 0
    ensures 0 <= n - b * (n / b) < b
  {
  }

  lemma NegativeFactor(b: int, q: int)
    ensures b * -q == -(b * q)
  {
  }

  lemma RestOfMultiple(a: int, b: int, q: int)
    requires b > 0 && -b < a - b * q < b
    ensures a - b * q == 0 <==> Divides(b, a)
  {
    if k: int :| a == b * k {
      assert a - b * q == b * (k - q);
      SmallMultiple(b, k - q);
    }
  }

  lemma SmallMultiple(b: int, k: int)
    requires b > 0 && -b < b * k < b
    ensures k == 0
  {
    assert k >= 1 ==> b * k >= b;
    assert k <= -1 ==> b * k <= -b;
  }

  // ----- A split -----

  /** What a split takes from the value of a position, in units of 10^-24: the quantity is multiplied by the ratio and the mark
      divided by it, each toward zero. */
  function SplitLoss(quantity: int, mark: int, ratio: int): int
    requires ratio != 0
  {
    SCALE * (quantity * mark - Quotient(quantity * ratio, SCALE) * Quotient(mark * SCALE, ratio))
  }

  lemma LossIdentity(scale: int, q: int, m: int, r: int, newQ: int, newM: int)
    ensures scale * (q * m - newQ * newM) == q * (m * scale - r * newM) + (q * r - scale * newQ) * newM
  {
    assert q * (m * scale - r * newM) == q * (m * scale) - q * (r * newM);
    assert (q * r - scale * newQ) * newM == q * r * newM - scale * newQ * newM;
    assert q * (m * scale) == scale * (q * m) by { assert q * (m * scale) == q * m * scale; }
    assert q * (r * newM) == q * r * newM;
    assert scale * newQ * newM == scale * (newQ * newM);
    assert scale * (q * m - newQ * newM) == scale * (q * m) - scale * (newQ * newM);
  }

  /** The loss is what the two divisions leave out: a unit of the mark at most for every unit of the old quantity, and less than
      a unit of the new quantity at the new mark. */
  lemma SplitLossIs(quantity: int, mark: int, ratio: int)
    requires mark >= 0 && ratio > 0
    ensures SplitLoss(quantity, mark, ratio)
            == quantity * Rest(mark * SCALE, ratio) + Rest(quantity * ratio, SCALE) * Quotient(mark * SCALE, ratio)
  {
    hide Quotient;
    var newQ, newM := Quotient(quantity * ratio, SCALE), Quotient(mark * SCALE, ratio);
    LossIdentity(SCALE, quantity, mark, ratio, newQ, newM);
  }

  lemma NonNegativeProduct(a: int, b: int)
    requires a >= 0 && b >= 0
    ensures a * b >= 0
  {
  }

  lemma ProductAtMost(a: int, b: int, c: int)
    requires 0 <= b <= c && a >= 0
    ensures 0 <= a * b <= a * c
  {
    NonNegativeProduct(a, b);
    NonNegativeProduct(a, c - b);
    assert a * (c - b) == a * c - a * b;
  }

  lemma MarkStaysNonNegative(mark: int, ratio: int)
    requires mark >= 0 && ratio > 0
    ensures Quotient(mark * SCALE, ratio) >= 0
  {
    NonNegativeProduct(mark, SCALE);
  }

  /** A split never makes a position worth more, and takes no more from a long one than `quantity (ratio - 1)` and
      `(SCALE - 1)` times the new mark, each in units of 10^-24. */
  lemma LongSplit(quantity: int, mark: int, ratio: int)
    requires quantity >= 0 && mark >= 0 && ratio > 0
    ensures 0 <= SplitLoss(quantity, mark, ratio)
    ensures SplitLoss(quantity, mark, ratio)
            <= quantity * (ratio - 1) + (SCALE - 1) * Quotient(mark * SCALE, ratio)
  {
    hide Rest, Quotient, SplitLoss;
    SplitLossIs(quantity, mark, ratio);
    NonNegativeProduct(mark, SCALE);
    NonNegativeProduct(quantity, ratio);
    QuotientLeaves(mark * SCALE, ratio);
    QuotientLeaves(quantity * ratio, SCALE);
    MarkStaysNonNegative(mark, ratio);
    var newM := Quotient(mark * SCALE, ratio);
    ProductAtMost(quantity, Rest(mark * SCALE, ratio), ratio - 1);
    ProductAtMost(newM, Rest(quantity * ratio, SCALE), SCALE - 1);
    Swap(newM, Rest(quantity * ratio, SCALE));
    Swap(newM, SCALE - 1);
  }

  lemma Swap(a: int, b: int)
    ensures a * b == b * a
  {
  }

  lemma QuotientIsOdd(a: int, b: int)
    requires b > 0
    ensures Quotient(-a, b) == -Quotient(a, b)
  {
    assert Magnitude(-a) == Magnitude(a);
  }

  /** A short position loses what the long one of its size does. */
  lemma SplitLossIsOdd(quantity: int, mark: int, ratio: int)
    requires ratio > 0
    ensures SplitLoss(-quantity, mark, ratio) == -SplitLoss(quantity, mark, ratio)
  {
    assert -quantity * ratio == -(quantity * ratio);
    QuotientIsOdd(quantity * ratio, SCALE);
    hide Quotient;
    var newQ, newM := Quotient(quantity * ratio, SCALE), Quotient(mark * SCALE, ratio);
    assert -newQ * newM == -(newQ * newM) && -quantity * mark == -(quantity * mark);
  }

  /** The value is kept exactly when the ratio divides the mark, or there is no position, and ratio times quantity has no more
      than eight decimals, or the new mark is zero. */
  lemma SplitIsExactExactlyWhen(quantity: int, mark: int, ratio: int)
    requires mark >= 0 && ratio > 0
    ensures SplitLoss(quantity, mark, ratio) == 0 <==>
              && (quantity == 0 || Divides(ratio, mark * SCALE))
              && (Quotient(mark * SCALE, ratio) == 0 || Divides(SCALE, quantity * ratio))
  {
    if quantity < 0 {
      SplitLossIsOdd(quantity, mark, ratio);
      LongSplitIsExact(-quantity, mark, ratio);
      NegativeMultiple(SCALE, quantity * ratio);
      assert -quantity * ratio == -(quantity * ratio);
    } else {
      LongSplitIsExact(quantity, mark, ratio);
    }
  }

  lemma NegativeMultiple(b: int, a: int)
    ensures Divides(b, -a) <==> Divides(b, a)
  {
    if k: int :| a == b * k {
      assert -a == b * -k;
    }
    if k: int :| -a == b * k {
      assert a == b * -k;
    }
  }

  lemma LongSplitIsExact(quantity: int, mark: int, ratio: int)
    requires quantity >= 0 && mark >= 0 && ratio > 0
    ensures SplitLoss(quantity, mark, ratio) == 0 <==>
              && (quantity == 0 || Divides(ratio, mark * SCALE))
              && (Quotient(mark * SCALE, ratio) == 0 || Divides(SCALE, quantity * ratio))
  {
    hide Rest, Quotient, SplitLoss, Divides;
    SplitLossIs(quantity, mark, ratio);
    NonNegativeProduct(mark, SCALE);
    NonNegativeProduct(quantity, ratio);
    QuotientLeaves(mark * SCALE, ratio);
    QuotientLeaves(quantity * ratio, SCALE);
    MarkStaysNonNegative(mark, ratio);
    TwoTermsVanish(quantity, Rest(mark * SCALE, ratio), Rest(quantity * ratio, SCALE), Quotient(mark * SCALE, ratio));
  }

  lemma TwoTermsVanish(a: int, b: int, c: int, d: int)
    requires a >= 0 && b >= 0 && c >= 0 && d >= 0
    ensures a * b + c * d == 0 <==> (a == 0 || b == 0) && (c == 0 || d == 0)
  {
    NonNegativeProduct(a, b);
    NonNegativeProduct(c, d);
    ProductVanishes(a, b);
    ProductVanishes(c, d);
  }

  lemma ProductVanishes(a: int, b: int)
    requires a >= 0 && b >= 0
    ensures a * b == 0 <==> a == 0 || b == 0
  {
    if a >= 1 && b >= 1 {
      NonNegativeProduct(a - 1, b);
      assert (a - 1) * b == a * b - b;
    }
  }

  /** Both signs, and the exact case. */
  lemma SplitLossWithin(quantity: int, mark: int, ratio: int)
    requires mark >= 0 && ratio > 0
    ensures var loss, newMark := SplitLoss(quantity, mark, ratio), Quotient(mark * SCALE, ratio);
            && (quantity >= 0 ==> 0 <= loss <= quantity * (ratio - 1) + (SCALE - 1) * newMark)
            && (quantity <= 0 ==> 0 <= -loss <= -quantity * (ratio - 1) + (SCALE - 1) * newMark)
            && (loss == 0 <==> && (quantity == 0 || Divides(ratio, mark * SCALE))
                               && (newMark == 0 || Divides(SCALE, quantity * ratio)))
  {
    hide Quotient, SplitLoss, Divides;
    SplitIsExactExactlyWhen(quantity, mark, ratio);
    if quantity >= 0 {
      LongSplit(quantity, mark, ratio);
    }
    if quantity <= 0 {
      LongSplit(-quantity, mark, ratio);
      SplitLossIsOdd(quantity, mark, ratio);
    }
  }

  /** The case that loses: one share is split at 0.33333333, its instrument closes at 1000, and then it is split at 0.5. The close
      between the two has set the mark, so the second split turns 0.33333333 shares at 1000 into 0.16666666 at 2000, and loses a
      hundred-thousandth. */
  lemma HalfOfAThird()
    ensures CheckedMul(1 * SCALE, 33_333_333) == Some(33_333_333)
    ensures CheckedMul(33_333_333, SCALE / 2) == Some(16_666_666)
    ensures CheckedDiv(1000 * SCALE, SCALE / 2) == Some(2000 * SCALE)
    ensures SplitLoss(33_333_333, 1000 * SCALE, SCALE / 2) == SCALE * (1000 * SCALE)
  {
  }
}
