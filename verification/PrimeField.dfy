/** Arithmetic modulo a prime. */
module PrimeField {

  /** Congruence modulo p. */
  ghost predicate Cong(p: int, a: int, b: int) {
    exists k: int :: a == b + k * p
  }

  function Pow(base: int, exponent: nat): int {
    if exponent == 0 then 1 else base * Pow(base, exponent - 1)
  }

  /** What is assumed of a modulus: it is prime, which gives Euclid's lemma and Fermat's theorem. */
  ghost predicate IsPrimeField(p: int) {
    p > 2 && (forall a, b :: EuclidAt(p, a, b)) && (forall a :: FermatAt(p, a))
  }

  ghost predicate EuclidAt(p: int, a: int, b: int) {
    Cong(p, a * b, 0) ==> Cong(p, a, 0) || Cong(p, b, 0)
  }

  ghost predicate FermatAt(p: int, a: int)
    requires p > 2
  {
    Cong(p, a, 0) || Cong(p, Pow(a, p - 1), 1)
  }

  // ----- Congruences -----

  lemma Witness(p: int, a: int, b: int, k: int)
    requires a == b + k * p
    ensures Cong(p, a, b)
  {
  }

  lemma CongRefl(p: int, a: int)
    ensures Cong(p, a, a)
  {
    Witness(p, a, a, 0);
  }

  lemma CongSym(p: int, a: int, b: int)
    requires Cong(p, a, b)
    ensures Cong(p, b, a)
  {
    var k: int :| a == b + k * p;
    assert b == a + (-k) * p;
  }

  lemma CongTrans(p: int, a: int, b: int, c: int)
    requires Cong(p, a, b) && Cong(p, b, c)
    ensures Cong(p, a, c)
  {
    var k: int :| a == b + k * p;
    var m: int :| b == c + m * p;
    assert k * p + m * p == (k + m) * p;
    Witness(p, a, c, k + m);
  }

  lemma CongAdd(p: int, a: int, b: int, c: int, d: int)
    requires Cong(p, a, b) && Cong(p, c, d)
    ensures Cong(p, a + c, b + d)
  {
    var k: int :| a == b + k * p;
    var m: int :| c == d + m * p;
    assert k * p + m * p == (k + m) * p;
    Witness(p, a + c, b + d, k + m);
  }

  lemma CongSub(p: int, a: int, b: int, c: int, d: int)
    requires Cong(p, a, b) && Cong(p, c, d)
    ensures Cong(p, a - c, b - d)
  {
    var k: int :| a == b + k * p;
    var m: int :| c == d + m * p;
    assert k * p - m * p == (k - m) * p;
    Witness(p, a - c, b - d, k - m);
  }

  lemma CongScale(p: int, a: int, b: int, c: int)
    requires Cong(p, a, b)
    ensures Cong(p, c * a, c * b) && Cong(p, a * c, b * c)
  {
    var k: int :| a == b + k * p;
    assert c * a == c * b + (c * k) * p by {
      assert c * (b + k * p) == c * b + c * (k * p) == c * b + (c * k) * p;
    }
    assert a * c == c * a && b * c == c * b;
    Witness(p, c * a, c * b, c * k);
  }

  lemma CongMul(p: int, a: int, b: int, c: int, d: int)
    requires Cong(p, a, b) && Cong(p, c, d)
    ensures Cong(p, a * c, b * d)
  {
    CongScale(p, c, d, a);
    CongScale(p, a, b, d);
    CongTrans(p, a * c, a * d, b * d);
  }

  /** A residue is congruent to what it is the residue of. */
  lemma CongResidue(p: int, a: int)
    requires p > 0
    ensures Cong(p, a % p, a) && Cong(p, a, a % p) && 0 <= a % p < p
  {
    assert a == a % p + (a / p) * p;
    Witness(p, a, a % p, a / p);
    CongSym(p, a, a % p);
  }

  /** Residues that are congruent are equal. */
  lemma CongInRange(p: int, a: int, b: int)
    requires p > 0 && Cong(p, a, b) && 0 <= a < p && 0 <= b < p
    ensures a == b
  {
    var k: int :| a == b + k * p;
    assert k >= 1 ==> k * p >= p;
    assert k <= -1 ==> k * p <= -p;
  }

  lemma CongIsEqualResidue(p: int, a: int, b: int)
    requires p > 0
    ensures Cong(p, a, b) <==> a % p == b % p
    ensures Cong(p, a, 0) <==> a % p == 0
  {
    CongResidue(p, a);
    CongResidue(p, b);
    if Cong(p, a, b) {
      CongTrans(p, a % p, a, b);
      CongTrans(p, a % p, b, b % p);
      CongInRange(p, a % p, b % p);
    }
    if a % p == b % p {
      CongTrans(p, a, a % p, b);
    }
    if Cong(p, a, 0) {
      CongTrans(p, a % p, a, 0);
      CongInRange(p, a % p, 0);
    }
  }

  // ----- Powers -----

  lemma {:induction false} PowSum(base: int, m: nat, n: nat)
    ensures Pow(base, m + n) == Pow(base, m) * Pow(base, n)
    decreases m
  {
    if m > 0 {
      PowSum(base, m - 1, n);
      assert base * (Pow(base, m - 1) * Pow(base, n)) == (base * Pow(base, m - 1)) * Pow(base, n);
    }
  }

  lemma {:induction false} PowCong(p: int, a: int, b: int, n: nat)
    requires Cong(p, a, b)
    ensures Cong(p, Pow(a, n), Pow(b, n))
    decreases n
  {
    if n == 0 {
      CongRefl(p, 1);
    } else {
      PowCong(p, a, b, n - 1);
      CongMul(p, a, b, Pow(a, n - 1), Pow(b, n - 1));
    }
  }

  lemma {:induction false} PowOfSquare(r: int, n: nat)
    ensures Pow(r * r, n) == Pow(r, 2 * n)
    decreases n
  {
    if n > 0 {
      PowOfSquare(r, n - 1);
      PowSum(r, 2, 2 * (n - 1));
      assert Pow(r, 2) == r * Pow(r, 1) == r * (r * Pow(r, 0)) == r * r;
    }
  }

  // ----- The field -----

  /** The inverse the source computes: the power p - 2. */
  lemma InverseInverts(p: int, a: int)
    requires IsPrimeField(p) && !Cong(p, a, 0)
    ensures Cong(p, a * (Pow(a, p - 2) % p), 1)
  {
    CongResidue(p, Pow(a, p - 2));
    CongScale(p, Pow(a, p - 2) % p, Pow(a, p - 2), a);
    assert a * Pow(a, p - 2) == Pow(a, p - 1);
    assert FermatAt(p, a);
    CongTrans(p, a * (Pow(a, p - 2) % p), Pow(a, p - 1), 1);
  }

  /** What is divided by a non-zero number is determined by the product. */
  lemma Cancel(p: int, a: int, b: int, c: int)
    requires IsPrimeField(p) && !Cong(p, c, 0) && Cong(p, a * c, b * c)
    ensures Cong(p, a, b)
  {
    CongRefl(p, b * c);
    CongSub(p, a * c, b * c, b * c, b * c);
    assert a * c - b * c == (a - b) * c;
    assert Cong(p, (a - b) * c, 0);
    assert EuclidAt(p, a - b, c);
    CongRefl(p, b);
    CongAdd(p, a - b, 0, b, b);
  }

  /** A number has at most two square roots, one the negative of the other. */
  lemma SquareRootsDifferBySign(p: int, a: int, b: int)
    requires IsPrimeField(p) && Cong(p, a * a, b * b)
    ensures Cong(p, a, b) || Cong(p, a, -b)
  {
    CongRefl(p, b * b);
    CongSub(p, a * a, b * b, b * b, b * b);
    assert a * a - b * b == (a - b) * (a + b);
    assert Cong(p, (a - b) * (a + b), 0);
    assert EuclidAt(p, a - b, a + b);
    CongRefl(p, b);
    CongRefl(p, -b);
    if Cong(p, a - b, 0) {
      CongAdd(p, a - b, 0, b, b);
    } else {
      CongAdd(p, a + b, 0, -b, -b);
    }
  }
}
