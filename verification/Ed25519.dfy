/** Keys, signatures and their verification, over the point group of EdwardsGroup and the coding of PointCoding. */
module Ed25519 {
  import opened Prelude
  import opened PrimeField
  import opened LittleEndian
  import opened Edwards
  import opened EdwardsGroup
  import opened PointCoding

  /** The constants of the source. */
  ghost predicate HasConstants(c: Curve) {
    && c.p == Pow(2, 255) - 19
    && c.order == Pow(2, 252) + 27742317777372353535851937790883648493
    && 0 <= c.d < c.p && Cong(c.p, 121666 * c.d, -121665)
    && c.i == Pow(2, (c.p - 1) / 4) % c.p
    && c.base.y == Quotient(c, 4, 5) && c.base.y >= 0
    && RecoverX(c, c.base.y, 0) == Some(c.base.x)
    && c.base == Standard(c, Base(c))
  }

  function Base(c: Curve): Affine {
    Affine(c.base.x, c.base.y)
  }

  /** The number theory and the group law taken as given: the field is prime, the addition law holds, 2 and `d` are not
      squares, and the base point has order GROUP_ORDER. */
  ghost predicate IsEd25519(c: Curve) {
    && IsCurve(c) && HasConstants(c)
    && Cong(c.p, c.i * c.i, -1)
    && IsNoSquare(c.p, c.d)
    && HasOrder(c, Base(c), c.order)
  }

  type Hash = seq<Byte> -> seq<Byte>

  ghost predicate IsSha512(hash: Hash) {
    forall data :: |hash(data)| == 64
  }

  // ----- Keys -----

  /** 2^254, the bit every secret scalar has. */
  function TopBit(): (bit: nat)
    ensures bit > 0
  {
    PowIsPositive(2, 254);
    Pow(2, 254)
  }

  lemma TopBitIsHalf()
    ensures 2 * TopBit() == Half() && TopBit() % 8 == 0 && TopBit() == 64 * Pow(256, 31) && Pow(256, 31) % 8 == 0
  {
    hide Pow;
    PowSum(2, 1, 254);
    PowSum(2, 6, 248);
    PowersOf256(31);
    PowOne(2);
    PowThree();
    EightDividesPower(251);
    EightDividesPower(245);
  }

  lemma EightDividesPower(n: nat)
    ensures Pow(2, n + 3) % 8 == 0
  {
    hide Pow;
    PowSum(2, n, 3);
    PowThree();
    EightDivides(0, Pow(2, n));
  }

  lemma PowThree()
    ensures Pow(2, 3) == 8 && Pow(2, 6) == 64
  {
  }

  /** The clamping of `_expand_seed`: the low three bits and all bits from 2^254 up are cleared, then 2^254 is set. */
  function Clamp(n: nat): nat {
    n % TopBit() - n % TopBit() % 8 + TopBit()
  }

  /** `_expand_seed`. */
  function ExpandSeed(hash: Hash, seed: seq<Byte>): Result<(nat, seq<Byte>), string>
    requires IsSha512(hash)
  {
    if |seed| != 32 then Failure("an Ed25519 seed is 32 bytes")
    else Success((Clamp(FromBytes(hash(seed)[..32])), hash(seed)[32..]))
  }

  function HashToScalar(c: Curve, hash: Hash, data: seq<Byte>): (scalar: nat)
    requires c.order > 1
    ensures scalar < c.order
  {
    FromBytes(hash(data)) % c.order
  }

  /** `public_key`. */
  function PublicKey(c: Curve, hash: Hash, seed: seq<Byte>): Result<seq<Byte>, string>
    requires c.p > 2 && IsSha512(hash)
  {
    match ExpandSeed(hash, seed)
    case Failure(error) => Failure(error)
    case Success((scalar, _)) => Success(Compress(c, Product(c, scalar, c.base)))
  }

  predicate HasSmallOrder(c: Curve, point: Point)
    requires c.p > 2
  {
    Equal(c, Product(c, 8, point), NEUTRAL)
  }

  predicate IsValidPublicKey(c: Curve, public: seq<Byte>)
    requires c.p > 2
  {
    match Decompress(c, public)
    case None => false
    case Some(point) => !Equal(c, point, NEUTRAL) && Equal(c, Product(c, c.order, point), NEUTRAL)
  }

  // ----- Signatures -----

  /** The nonce of `sign`. */
  function Nonce(c: Curve, hash: Hash, prefix: seq<Byte>, message: seq<Byte>): (nonce: nat)
    requires c.order > 1
    ensures nonce < c.order
  {
    HashToScalar(c, hash, prefix + message)
  }

  /** `sign`. */
  function Sign(c: Curve, hash: Hash, seed: seq<Byte>, message: seq<Byte>): Result<seq<Byte>, string>
    requires c.p > 2 && c.order > 1 && IsSha512(hash)
  {
    match ExpandSeed(hash, seed)
    case Failure(error) => Failure(error)
    case Success((scalar, prefix)) =>
      var public := Compress(c, Product(c, scalar, c.base));
      var nonce := Nonce(c, hash, prefix, message);
      var commitment := Compress(c, Product(c, nonce, c.base));
      var challenge := HashToScalar(c, hash, commitment + public + message);
      var response := (nonce + Mul(challenge, scalar)) % c.order;
      Success(commitment + ToBytes(response, 32))
  }

  /** `verify`. */
  predicate Verify(c: Curve, hash: Hash, public: seq<Byte>, message: seq<Byte>, signature: seq<Byte>)
    requires c.p > 2 && c.order > 1
  {
    |public| == 32 && |signature| == 64 &&
    match (Decompress(c, public), Decompress(c, signature[..32]))
    case (Some(key), Some(commitment)) =>
      var response := FromBytes(signature[32..]);
      var challenge := HashToScalar(c, hash, signature[..32] + public + message);
      && !HasSmallOrder(c, key) && !HasSmallOrder(c, commitment)
      && response < c.order
      && Equal(c, Product(c, response, c.base), Add(c, commitment, Product(c, challenge, key)))
    case _ => false
  }

  // ----- What the constants give -----

  lemma Bounds(c: Curve)
    requires HasConstants(c)
    ensures c.p > 2 && c.p % 8 == 5 && c.p < Half()
    ensures c.order > 1 && c.order % 8 == 5 && 8 * c.order > Half() && c.order < Half()
  {
    hide Pow, Cong, Quotient, RecoverX, Standard, Equal, Root;
    PowSum(2, 3, 252);
    PowThree();
    PowSum(2, 3, 249);
    LargePowers();
  }

  lemma LargePowers()
    ensures Pow(2, 252) > 0x1_0000_0000_0000_0000_0000_0000_0000_0000 - 1 && Pow(2, 249) > 0
  {
    hide Pow;
    PowSum(2, 128, 124);
    PowSum(2, 64, 64);
    PowIsPositive(2, 124);
    PowIsPositive(2, 249);
    SixtyFour();
    AtLeastFactor(Pow(2, 128), Pow(2, 124));
  }

  lemma AtLeastFactor(a: nat, b: nat)
    requires b > 0
    ensures a * b >= a
  {
  }

  lemma SixtyFour()
    ensures Pow(2, 64) == 0x1_0000_0000_0000_0000
    ensures Pow(2, 64) * Pow(2, 64) == 0x1_0000_0000_0000_0000_0000_0000_0000_0000
  {
    hide Pow;
    PowSum(2, 8, 8);
    PowSum(2, 16, 16);
    PowSum(2, 32, 32);
    assert Pow(2, 8) == 256 by { PowersOf256(1); PowOne(256); }
  }

  lemma Ed25519HasCoding(c: Curve)
    requires IsEd25519(c)
    ensures HasCoding(c)
  {
    hide Pow, IsCurve, Cong, HasOrder, Quotient, RecoverX, Standard, Half;
    Bounds(c);
  }

  lemma BaseRepresents(c: Curve)
    requires IsEd25519(c)
    ensures c.p > 2 && OnCurve(c, Base(c)) && Represents(c, c.base, Base(c)) && HasOrder(c, Base(c), c.order)
    ensures HasCoding(c)
  {
    hide Pow, IsPrimeField, AdditionLaw, Cong, Quotient, RecoverX, Standard, Half, Times, OnCurve, Represents;
    Ed25519HasCoding(c);
    OrderAt(c, Base(c), c.order, 0);
    StandardRepresents(c, Base(c));
  }

  // ----- Clamping -----

  /** Section 5.1.5 of RFC 8032, octet by octet: clear the low three bits of the first octet, clear the top bit of the
      last and set the one below it. */
  function ClampOctets(bytes: seq<Byte>): seq<Byte>
    requires |bytes| == 32
  {
    [bytes[0] - bytes[0] % 8] + bytes[1..31] + [bytes[31] % 64 + 64]
  }

  lemma {:induction false} FromBytesAppend(bytes: seq<Byte>, last: Byte)
    ensures FromBytes(bytes + [last]) == FromBytes(bytes) + Pow(256, |bytes|) * last
  {
    if bytes == [] {
      assert bytes + [last] == [last];
      assert [last][1..] == [];
    } else {
      FromBytesAppend(bytes[1..], last);
      assert (bytes + [last])[1..] == bytes[1..] + [last];
      var k := Pow(256, |bytes| - 1);
      assert 256 * (k * last) == 256 * k * last;
    }
  }

  lemma ResidueIs(n: int, m: int, q: int, r: int)
    requires n == r + q * m && 0 <= r < m
    ensures n % m == r
  {
    hide Cong;
    CongResidue(m, n);
    Witness(m, n, r, q);
    CongTrans(m, n % m, n, r);
    CongInRange(m, n % m, r);
  }

  lemma SplitTop(low: nat, q: nat, r: nat, m: nat)
    requires low < m && r < 64
    ensures (low + m * (64 * q + r)) % (64 * m) == low + m * r
  {
    Regroup64(low, q, r, m);
    ResidueIs(low + m * (64 * q + r), 64 * m, q, low + m * r);
  }

  lemma Regroup64(low: nat, q: nat, r: nat, m: nat)
    requires low < m && r < 64
    ensures low + m * (64 * q + r) == low + m * r + q * (64 * m) && 0 <= low + m * r < 64 * m
  {
    assert m * (64 * q + r) == m * (64 * q) + m * r;
    assert m * (64 * q) == q * (64 * m);
    assert m * r >= 0 && m * (63 - r) >= 0;
  }

  /** Clamping a number given by its first 31 octets and the last one. */
  lemma ClampNumber(low: nat, last: Byte, m: nat)
    requires m % 8 == 0 && low < m && TopBit() == 64 * m
    ensures Clamp(low + m * last) == low - low % 8 + m * (last % 64 + 64)
  {
    hide TopBit;
    var r := last % 64;
    SplitTop(low, last / 64, r, m);
    LowBits(low, m, r);
    assert m * (r + 64) == m * r + 64 * m;
  }

  lemma FromBytesLow(bytes: seq<Byte>, first: Byte)
    requires bytes != []
    ensures FromBytes(bytes) % 8 == bytes[0] % 8
    ensures FromBytes([first] + bytes[1..]) == FromBytes(bytes) - bytes[0] + first
  {
    hide FromBytes;
    var rest := FromBytes(bytes[1..]);
    FromBytesHead(bytes);
    FromBytesHead([first] + bytes[1..]);
    assert ([first] + bytes[1..])[1..] == bytes[1..];
    assert bytes[0] + 256 * rest == bytes[0] % 8 + 8 * (bytes[0] / 8 + 32 * rest);
    EightDivides(bytes[0] % 8, bytes[0] / 8 + 32 * rest);
  }

  lemma FromBytesHead(bytes: seq<Byte>)
    requires bytes != []
    ensures FromBytes(bytes) == bytes[0] + 256 * FromBytes(bytes[1..])
  {
  }

  lemma EightDivides(r: nat, k: int)
    requires r < 8
    ensures (r + 8 * k) % 8 == r
  {
  }

  /** The masks of `_expand_seed` do what the RFC asks of the octets. */
  lemma ClampIsOctetwise(bytes: seq<Byte>)
    requires |bytes| == 32
    ensures Clamp(FromBytes(bytes)) == FromBytes(ClampOctets(bytes))
  {
    hide Pow, FromBytes, TopBit;
    var low, last, m := bytes[..31], bytes[31], Pow(256, 31);
    TopBitIsHalf();
    FromBytesIsBounded(low);
    FromBytesAppend(low, last);
    assert low + [last] == bytes;
    ClampNumber(FromBytes(low), last, m);
    FromBytesLow(low, low[0] - low[0] % 8);
    var first := low[0] - low[0] % 8;
    FromBytesAppend([first] + low[1..], last % 64 + 64);
    assert low[1..] == bytes[1..31];
  }

  lemma LowBits(low: nat, m: nat, r: nat)
    requires m % 8 == 0
    ensures (low + m * r) % 8 == low % 8
  {
    var k := m / 8;
    assert m * r == 8 * (k * r) by { assert m == 8 * k; }
  }

  /** The range and the divisibility of a secret scalar. */
  lemma ClampInRange(n: nat)
    ensures var s := Clamp(n); TopBit() <= s < Half() && s % 8 == 0
  {
    hide TopBit, Half;
    TopBitIsHalf();
    ResidueBelow(n, TopBit());
    RoundDown(n % TopBit(), TopBit());
  }

  lemma RoundDown(r: nat, t: nat)
    requires r < t && t % 8 == 0
    ensures t <= r - r % 8 + t < 2 * t && (r - r % 8 + t) % 8 == 0
  {
  }

  /** A secret scalar is never a multiple of the group order, because eight times the order is above 2^255. */
  lemma ClampIsNoMultiple(c: Curve, s: nat)
    requires c.order % 8 == 5 && 8 * c.order > Half() && 0 < s < Half() && s % 8 == 0
    ensures !Cong(c.order, s, 0)
  {
    hide Half;
    if Cong(c.order, s, 0) {
      var k: int :| s == 0 + k * c.order;
      FactorEight(c.order, k);
      Large(c.order, k);
    }
  }

  lemma Large(order: nat, k: int)
    requires k * order > 0 && k % 8 == 0
    ensures k * order >= 8 * order
  {
    assert k <= 0 ==> k * order <= 0;
    assert (k - 8) * order >= 0;
  }

  /** The order is odd, so a multiple of it that eight divides is a multiple by a multiple of eight. */
  lemma FactorEight(order: nat, k: int)
    requires order % 8 == 5 && (k * order) % 8 == 0
    ensures k % 8 == 0
  {
    var j := order / 8;
    assert k * order == 8 * (k * j) + 5 * k by { assert order == 8 * j + 5; }
  }

  // ----- The tests of a point -----

  /** `_has_small_order` decides whether eight times the point is neutral. */
  lemma SmallOrderIsExact(c: Curve, q: Point, a: Affine)
    requires IsCurve(c) && Represents(c, q, a)
    ensures HasSmallOrder(c, q) <==> Times(c, 8, a) == ZERO
  {
    hide IsPrimeField, AdditionLaw, Represents, Times, Product, Equal;
    ProductIsMultiple(c, 8, q, a);
    NeutralIsZero(c);
    EqualExactlyWhenSame(c, Product(c, 8, q), NEUTRAL, Times(c, 8, a), ZERO);
  }

  /** The strings `is_valid_public_key` admits: the encodings of the points of the group, the neutral one apart. */
  lemma ValidPublicKeyIsExact(c: Curve, a: Affine)
    requires IsEd25519(c) && OnCurve(c, a)
    ensures IsValidPublicKey(c, Encode(a)) <==> a != ZERO && Times(c, c.order, a) == ZERO
  {
    hide IsPrimeField, AdditionLaw, HasConstants, HasOrder, Represents, OnCurve, Times, Product, Equal, Encode, Decompress,
         Cong, Standard;
    Ed25519HasCoding(c);
    var q := Standard(c, a);
    assert a.y >= 0 by { StandardRepresents(c, a); Parts(c, q, a); }
    DecompressInvertsEncode(c, a);
    StandardRepresents(c, a);
    NeutralIsZero(c);
    ProductIsMultiple(c, c.order, q, a);
    EqualExactlyWhenSame(c, q, NEUTRAL, a, ZERO);
    EqualExactlyWhenSame(c, Product(c, c.order, q), NEUTRAL, Times(c, c.order, a), ZERO);
  }

  /** In the group of odd order only the neutral point is killed by eight: 5A = 8jA + 5A = (order) A = 0, so 3A = 8A - 5A,
      2A and A vanish. */
  lemma GroupHasNoSmallOrder(c: Curve, a: Affine)
    requires IsCurve(c) && OnCurve(c, a) && c.order % 8 == 5
    requires Times(c, c.order, a) == ZERO && Times(c, 8, a) == ZERO
    ensures a == ZERO
  {
    hide IsPrimeField, AdditionLaw, OnCurve, Times, Sum;
    var j := c.order / 8;
    MulIsProduct(j, 8);
    TimesOfProduct(c, j, 8, a);
    TimesOfZero(c, j);
    TimesOfSum(c, Mul(j, 8), 5, a);
    TimesOfSum(c, 5, 3, a);
    TimesOfSum(c, 3, 2, a);
    TimesOfSum(c, 2, 1, a);
    TimesOne(c, a);
    forall n: nat ensures Sum(c, ZERO, Times(c, n, a)) == Times(c, n, a) {
      TimesIsOnCurve(c, n, a);
      SumWithZero(c, Times(c, n, a));
    }
  }

  /** What a string decodes to, when it decodes. */
  ghost predicate Encodes(c: Curve, bytes: seq<Byte>, a: Affine) {
    OnCurve(c, a) && a.y >= 0 && bytes == Encode(a)
  }

  lemma DecompressGives(c: Curve, bytes: seq<Byte>) returns (a: Affine)
    requires HasCoding(c) && Decompress(c, bytes).Some?
    ensures Encodes(c, bytes, a) && Represents(c, Decompress(c, bytes).value, a)
  {
    hide IsPrimeField, AdditionLaw, OnCurve, Encode, Decompress, Cong, Standard, Represents;
    var q := Decompress(c, bytes).value;
    a := Affine(q.x, q.y);
    DecompressIsExact(c, bytes, q);
    StandardRepresents(c, a);
    Parts(c, q, a);
  }

  lemma EncodesGives(c: Curve, bytes: seq<Byte>, a: Affine)
    requires HasCoding(c) && Encodes(c, bytes, a)
    ensures |bytes| == 32
    ensures Decompress(c, bytes).Some? && Represents(c, Decompress(c, bytes).value, a)
  {
    hide IsPrimeField, AdditionLaw, OnCurve, Encode, Decompress, Cong, Standard, Represents;
    DecompressInvertsEncode(c, a);
    StandardRepresents(c, a);
    Parts(c, Standard(c, a), a);
    EncodeFits(a);
  }

  /** A key that passes `is_valid_public_key` is never refused by `verify` as one of small order. */
  lemma ValidKeysAreNotOfSmallOrder(c: Curve, public: seq<Byte>)
    requires IsEd25519(c) && IsValidPublicKey(c, public)
    ensures !HasSmallOrder(c, Decompress(c, public).value)
  {
    hide IsPrimeField, AdditionLaw, HasConstants, HasOrder, Represents, OnCurve, Times, Product, Equal, Encode, Decompress,
         Cong, Standard, HasSmallOrder, Base;
    Ed25519HasCoding(c);
    Bounds(c);
    var a := DecompressGives(c, public);
    assert Decompress(c, public).Some?;
    ValidPublicKeyIsExact(c, a);
    SmallOrderIsExact(c, Decompress(c, public).value, a);
    if Times(c, 8, a) == ZERO {
      GroupHasNoSmallOrder(c, a);
    }
  }

  // ----- Verification -----

  /** The equation of section 5.1.7 of RFC 8032, with this source's refusal of small orders. */
  ghost predicate Accepts(c: Curve, challenge: nat, response: nat, key: Affine, commitment: Affine)
    requires c.p > 2
  {
    && Times(c, 8, key) != ZERO && Times(c, 8, commitment) != ZERO
    && response < c.order
    && Times(c, response, Base(c)) == Sum(c, commitment, Times(c, challenge, key))
  }

  function Challenge(c: Curve, hash: Hash, public: seq<Byte>, message: seq<Byte>, signature: seq<Byte>): nat
    requires c.order > 1 && |signature| == 64
  {
    HashToScalar(c, hash, signature[..32] + public + message)
  }

  lemma EquationIsExact(c: Curve, challenge: nat, response: nat, key: Point, commitment: Point, a: Affine, r: Affine)
    requires IsEd25519(c) && Represents(c, key, a) && Represents(c, commitment, r)
    ensures Equal(c, Product(c, response, c.base), Add(c, commitment, Product(c, challenge, key)))
            <==> Times(c, response, Base(c)) == Sum(c, r, Times(c, challenge, a))
  {
    hide IsPrimeField, AdditionLaw, HasConstants, HasOrder, Represents, Times, Product, Equal, Add, Sum, Cong, Base;
    BaseRepresents(c);
    ProductIsMultiple(c, response, c.base, Base(c));
    ProductIsMultiple(c, challenge, key, a);
    AddRepresentsSum(c, commitment, Product(c, challenge, key), r, Times(c, challenge, a));
    EqualExactlyWhenSame(c, Product(c, response, c.base), Add(c, commitment, Product(c, challenge, key)),
                         Times(c, response, Base(c)), Sum(c, r, Times(c, challenge, a)));
  }

  /** For the encodings of curve points `verify` is the equation. */
  lemma VerifyAt(c: Curve, hash: Hash, public: seq<Byte>, message: seq<Byte>, signature: seq<Byte>, a: Affine, r: Affine)
    requires IsEd25519(c) && c.order > 1 && |signature| == 64
    requires Encodes(c, public, a) && Encodes(c, signature[..32], r)
    ensures Verify(c, hash, public, message, signature)
            <==> Accepts(c, Challenge(c, hash, public, message, signature), FromBytes(signature[32..]), a, r)
  {
    hide IsPrimeField, AdditionLaw, HasConstants, HasOrder, Represents, Times, Product, Equal, Add, Sum, Cong, Base,
         Decompress, HasSmallOrder, FromBytes, HashToScalar, Encodes;
    Ed25519HasCoding(c);
    EncodesGives(c, public, a);
    EncodesGives(c, signature[..32], r);
    var key, commitment := Decompress(c, public).value, Decompress(c, signature[..32]).value;
    SmallOrderIsExact(c, key, a);
    SmallOrderIsExact(c, commitment, r);
    EquationIsExact(c, Challenge(c, hash, public, message, signature), FromBytes(signature[32..]), key, commitment, a, r);
  }

  /** `verify` accepts exactly when key and commitment encode curve points that satisfy the equation under the hash of
      commitment, key and message: for every string. */
  lemma VerifyIsExact(c: Curve, hash: Hash, public: seq<Byte>, message: seq<Byte>, signature: seq<Byte>)
    requires IsEd25519(c) && c.order > 1
    ensures Verify(c, hash, public, message, signature) <==>
            |signature| == 64 &&
            exists a, r :: Encodes(c, public, a) && Encodes(c, signature[..32], r) &&
                           Accepts(c, FromBytes(hash(signature[..32] + public + message)) % c.order,
                                   FromBytes(signature[32..]), a, r)
  {
    hide IsPrimeField, AdditionLaw, HasConstants, HasOrder, Represents, Times, Product, Equal, Add, Sum, Cong, Base,
         Decompress, HasSmallOrder, FromBytes, Encodes, Accepts;
    Ed25519HasCoding(c);
    if Verify(c, hash, public, message, signature) {
      var a := DecompressGives(c, public);
      var r := DecompressGives(c, signature[..32]);
      VerifyAt(c, hash, public, message, signature, a, r);
    }
    if |signature| == 64 {
      forall a, r | Encodes(c, public, a) && Encodes(c, signature[..32], r) &&
          Accepts(c, Challenge(c, hash, public, message, signature), FromBytes(signature[32..]), a, r)
        ensures Verify(c, hash, public, message, signature)
      {
        VerifyAt(c, hash, public, message, signature, a, r);
      }
    }
  }

  /** One commitment has one response: two accepted signatures of a message that share the first half are equal. */
  lemma OneResponsePerCommitment(c: Curve, hash: Hash, public: seq<Byte>, message: seq<Byte>, one: seq<Byte>, two: seq<Byte>)
    requires IsEd25519(c) && c.order > 1
    requires Verify(c, hash, public, message, one) && Verify(c, hash, public, message, two) && one[..32] == two[..32]
    ensures one == two
  {
    hide IsPrimeField, AdditionLaw, HasConstants, HasOrder, Represents, Times, Product, Equal, Add, Sum, Cong, Base,
         Decompress, HasSmallOrder, FromBytes, HashToScalar, Encodes, Half;
    Ed25519HasCoding(c);
    BaseRepresents(c);
    var a := DecompressGives(c, public);
    var r := DecompressGives(c, one[..32]);
    VerifyAt(c, hash, public, message, one, a, r);
    VerifyAt(c, hash, public, message, two, a, r);
    var s, t := FromBytes(one[32..]), FromBytes(two[32..]);
    SameMultiple(c, s, t);
    ToBytesInvertsFromBytes(one[32..]);
    ToBytesInvertsFromBytes(two[32..]);
    assert one == one[..32] + one[32..] && two == two[..32] + two[32..];
  }

  lemma SameMultiple(c: Curve, s: nat, t: nat)
    requires IsEd25519(c) && s < c.order && t < c.order && Times(c, s, Base(c)) == Times(c, t, Base(c))
    ensures s == t
  {
    hide IsPrimeField, AdditionLaw, HasConstants, HasOrder, Times, Cong, Base;
    BaseRepresents(c);
    TimesIsInjective(c, Base(c), c.order, if s < t then s else t, if s < t then t else s);
    CongInRange(c.order, if s < t then t else s, if s < t then s else t);
  }

  // ----- Keys and signatures made from a seed -----

  /** The scalar and the prefix of a seed. */
  function SecretScalar(hash: Hash, seed: seq<Byte>): nat
    requires IsSha512(hash)
  {
    Clamp(FromBytes(hash(seed)[..32]))
  }

  lemma MultipleOfBase(c: Curve, n: nat)
    requires IsEd25519(c)
    ensures OnCurve(c, Times(c, n, Base(c))) && Times(c, n, Base(c)).y >= 0
    ensures HasCoding(c) && Compress(c, Product(c, n, c.base)) == Encode(Times(c, n, Base(c)))
    ensures Encodes(c, Compress(c, Product(c, n, c.base)), Times(c, n, Base(c)))
  {
    hide IsPrimeField, AdditionLaw, HasConstants, HasOrder, Represents, Times, Product, OnCurve, Cong, Base, Compress, Encode;
    BaseRepresents(c);
    ProductIsMultiple(c, n, c.base, Base(c));
    Parts(c, Product(c, n, c.base), Times(c, n, Base(c)));
    CompressIsEncode(c, Product(c, n, c.base), Times(c, n, Base(c)));
  }

  /** The order takes every multiple of the base point to the neutral one. */
  lemma OrderKillsMultiples(c: Curve, n: nat)
    requires IsEd25519(c)
    ensures Times(c, c.order, Times(c, n, Base(c))) == ZERO
  {
    hide IsPrimeField, AdditionLaw, HasConstants, HasOrder, Represents, Times, OnCurve, Cong, Base;
    BaseRepresents(c);
    MulIsProduct(c.order, n);
    TimesOfProduct(c, c.order, n, Base(c));
    Witness(c.order, Mul(c.order, n), 0, n);
    OrderAt(c, Base(c), c.order, Mul(c.order, n));
  }

  /** The public key of any seed is the encoding of a point of the group that is not the neutral one. */
  lemma SecretPointIsNotZero(c: Curve, hash: Hash, seed: seq<Byte>)
    requires IsEd25519(c) && IsSha512(hash)
    ensures Times(c, SecretScalar(hash, seed), Base(c)) != ZERO
  {
    hide IsPrimeField, AdditionLaw, HasConstants, HasOrder, Represents, Times, OnCurve, Cong, Base, Clamp, Half, TopBit;
    Bounds(c);
    BaseRepresents(c);
    ClampInRange(FromBytes(hash(seed)[..32]));
    var s := SecretScalar(hash, seed);
    ClampIsNoMultiple(c, s);
    OrderAt(c, Base(c), c.order, s);
  }

  /** Every derived key passes `is_valid_public_key`. */
  lemma DerivedKeysAreValid(c: Curve, hash: Hash, seed: seq<Byte>)
    requires IsEd25519(c) && IsSha512(hash) && |seed| == 32
    ensures PublicKey(c, hash, seed).Success? && IsValidPublicKey(c, PublicKey(c, hash, seed).value)
  {
    hide IsPrimeField, AdditionLaw, HasConstants, HasOrder, Represents, Times, OnCurve, Cong, Base, Clamp, Compress, Product,
         Encode, IsValidPublicKey;
    var s := SecretScalar(hash, seed);
    MultipleOfBase(c, s);
    SecretPointIsNotZero(c, hash, seed);
    OrderKillsMultiples(c, s);
    ValidPublicKeyIsExact(c, Times(c, s, Base(c)));
  }

  /** The response of `sign` solves the equation: ((nonce + challenge s) mod order) B = nonce B + challenge (s B). */
  lemma ResponseSolves(c: Curve, nonce: nat, challenge: nat, s: nat)
    requires IsEd25519(c) && c.order > 1
    ensures Times(c, (nonce + Mul(challenge, s)) % c.order, Base(c))
            == Sum(c, Times(c, nonce, Base(c)), Times(c, challenge, Times(c, s, Base(c))))
  {
    hide IsPrimeField, AdditionLaw, HasConstants, HasOrder, Represents, Times, OnCurve, Cong, Base, Sum, Mul;
    BaseRepresents(c);
    var n := nonce + Mul(challenge, s);
    CongResidue(c.order, n);
    ResidueAtMost(n, c.order);
    TimesModulo(c, Base(c), c.order, n % c.order, n);
    TimesOfSum(c, nonce, Mul(challenge, s), Base(c));
    TimesOfProduct(c, challenge, s, Base(c));
  }

  lemma ResidueAtMost(n: nat, m: nat)
    requires m > 0
    ensures n % m <= n
  {
    if n < m {
      RemainderOfSmall(n, m);
    }
  }

  lemma RemainderOfSmall(n: nat, m: nat)
    requires n < m
    ensures n % m == n
  {
  }

  /** The commitment is of small order exactly when the nonce is zero. */
  lemma CommitmentOrder(c: Curve, nonce: nat)
    requires IsEd25519(c) && nonce < c.order
    ensures Times(c, 8, Times(c, nonce, Base(c))) == ZERO <==> nonce == 0
  {
    hide IsPrimeField, AdditionLaw, HasConstants, HasOrder, Represents, OnCurve, Cong, Base, Sum, Times;
    BaseRepresents(c);
    Bounds(c);
    var r := Times(c, nonce, Base(c));
    OrderAt(c, Base(c), c.order, nonce);
    TimesIsOnCurve(c, nonce, Base(c));
    OrderKillsMultiples(c, nonce);
    if Times(c, 8, r) == ZERO {
      GroupHasNoSmallOrder(c, r);
      CongInRange(c.order, nonce, 0);
    }
    if nonce == 0 {
      CongRefl(c.order, 0);
      TimesOfZero(c, 8);
    }
  }

  lemma SignatureInGroup(c: Curve, hash: Hash, seed: seq<Byte>, message: seq<Byte>)
    requires IsEd25519(c) && c.order > 1 && IsSha512(hash) && |seed| == 32
    ensures var signature, public := Sign(c, hash, seed, message), PublicKey(c, hash, seed);
            var s, nonce := SecretScalar(hash, seed), Nonce(c, hash, hash(seed)[32..], message);
            && signature.Success? && public.Success? && |signature.value| == 64
            && Encodes(c, public.value, Times(c, s, Base(c)))
            && Encodes(c, signature.value[..32], Times(c, nonce, Base(c)))
            && FromBytes(signature.value[32..])
               == (nonce + Mul(Challenge(c, hash, public.value, message, signature.value), s)) % c.order
  {
    hide IsPrimeField, AdditionLaw, HasConstants, HasOrder, OnCurve, Cong, Base, Times, Mul, Clamp, Encodes, Compress,
         Product, FromBytes, ToBytes, HashToScalar, Nonce;
    Bounds(c);
    var s, nonce := SecretScalar(hash, seed), Nonce(c, hash, hash(seed)[32..], message);
    MultipleOfBase(c, s);
    MultipleOfBase(c, nonce);
    var commitment, public := Compress(c, Product(c, nonce, c.base)), Compress(c, Product(c, s, c.base));
    assert |commitment| == 32 by { EncodesGives(c, commitment, Times(c, nonce, Base(c))); }
    var response := (nonce + Mul(HashToScalar(c, hash, commitment + public + message), s)) % c.order;
    ResponseFits(c, response);
    var signature := commitment + ToBytes(response, 32);
    assert signature[..32] == commitment && signature[32..] == ToBytes(response, 32);
    assert Sign(c, hash, seed, message) == Success(signature);
  }

  lemma ResponseFits(c: Curve, response: nat)
    requires HasConstants(c) && response < c.order
    ensures FromBytes(ToBytes(response, 32)) == response
  {
    hide Pow, HasConstants;
    Bounds(c);
    DoubleHalf();
    PowersOf256(32);
    FromBytesInvertsToBytes(response, 32);
  }

  /** What `sign` returns: the commitment encodes the nonce's multiple of the base point, where the nonce is the hash of the seed's
      prefix and the message, and the response is the nonce plus the hash of commitment, key and message times the secret scalar. */
  lemma SignatureParts(c: Curve, hash: Hash, seed: seq<Byte>, message: seq<Byte>)
    requires IsEd25519(c) && c.order > 1 && IsSha512(hash) && |seed| == 32
    ensures var signature, public := Sign(c, hash, seed, message), PublicKey(c, hash, seed);
            var s, nonce := Clamp(FromBytes(hash(seed)[..32])), FromBytes(hash(hash(seed)[32..] + message)) % c.order;
            && signature.Success? && public.Success? && |signature.value| == 64
            && Encodes(c, public.value, Times(c, s, Base(c)))
            && Encodes(c, signature.value[..32], Times(c, nonce, Base(c)))
            && (var challenge := FromBytes(hash(signature.value[..32] + public.value + message)) % c.order;
                FromBytes(signature.value[32..]) == (nonce + challenge * s) % c.order)
  {
    hide IsPrimeField, AdditionLaw, HasConstants, HasOrder, OnCurve, Cong, Base, Times, Mul, Clamp, Encodes, Sign, PublicKey,
         FromBytes, HashToScalar;
    SignatureInGroup(c, hash, seed, message);
    var signature, public := Sign(c, hash, seed, message).value, PublicKey(c, hash, seed).value;
    HashedScalar(c, hash, hash(seed)[32..] + message);
    HashedScalar(c, hash, signature[..32] + public + message);
    MulIsProduct(Challenge(c, hash, public, message, signature), SecretScalar(hash, seed));
  }

  lemma HashedScalar(c: Curve, hash: Hash, data: seq<Byte>)
    requires c.order > 1
    ensures HashToScalar(c, hash, data) == FromBytes(hash(data)) % c.order
  {
    hide FromBytes;
  }

  lemma SignatureSolves(c: Curve, hash: Hash, seed: seq<Byte>, message: seq<Byte>)
    requires IsEd25519(c) && c.order > 1 && IsSha512(hash) && |seed| == 32
    ensures var public, signature := PublicKey(c, hash, seed), Sign(c, hash, seed, message);
            && public.Success? && signature.Success?
            && (Verify(c, hash, public.value, message, signature.value)
                <==> Nonce(c, hash, hash(seed)[32..], message) != 0)
  {
    hide IsPrimeField, AdditionLaw, HasConstants, HasOrder, OnCurve, Cong, Base, Times, Mul, Clamp, Encodes, Sign, PublicKey,
         Product, FromBytes, ToBytes, HashToScalar, Nonce, Challenge, Verify, SecretScalar, Sum;
    SignatureInGroup(c, hash, seed, message);
    var public, signature := PublicKey(c, hash, seed).value, Sign(c, hash, seed, message).value;
    var s, nonce := SecretScalar(hash, seed), Nonce(c, hash, hash(seed)[32..], message);
    var challenge := Challenge(c, hash, public, message, signature);
    var a := Times(c, s, Base(c));
    VerifyAt(c, hash, public, message, signature, a, Times(c, nonce, Base(c)));
    ResponseSolves(c, nonce, challenge, s);
    CommitmentOrder(c, nonce);
    SecretPointIsNotZero(c, hash, seed);
    OrderKillsMultiples(c, s);
    if Times(c, 8, a) == ZERO {
      Bounds(c);
      MultipleOfBase(c, s);
      GroupHasNoSmallOrder(c, a);
    }
    ResidueBelow(nonce + Mul(challenge, s), c.order);
  }

  /** The round trip of sections 5.1.5 to 5.1.7 of RFC 8032, for every seed and message: the signature `sign` makes is one
      that `verify` accepts under the seed's own public key, exactly when the nonce is not zero. */
  lemma SignedMessagesVerify(c: Curve, hash: Hash, seed: seq<Byte>, message: seq<Byte>)
    requires IsEd25519(c) && c.order > 1 && IsSha512(hash) && |seed| == 32
    ensures var public, signature := PublicKey(c, hash, seed), Sign(c, hash, seed, message);
            && public.Success? && signature.Success?
            && (Verify(c, hash, public.value, message, signature.value)
                <==> FromBytes(hash(hash(seed)[32..] + message)) % c.order != 0)
  {
    hide IsEd25519, Sign, PublicKey, Verify, FromBytes, HashToScalar;
    SignatureSolves(c, hash, seed, message);
    HashedScalar(c, hash, hash(seed)[32..] + message);
  }

  // ----- What a signature is of -----

  /** A commitment that solves the equation of a key derived from a seed is itself a multiple of the base point. */
  lemma CommitmentIsMultiple(c: Curve, s: nat, r: Affine, challenge: nat, response: nat) returns (t: nat)
    requires IsEd25519(c) && c.order > 1 && OnCurve(c, r)
    requires Times(c, response, Base(c)) == Sum(c, r, Times(c, challenge, Times(c, s, Base(c))))
    ensures r == Times(c, t, Base(c))
  {
    hide IsPrimeField, AdditionLaw, HasConstants, HasOrder, Represents, OnCurve, Cong, Base, Sum, Times, Mul;
    BaseRepresents(c);
    var x := Mul(challenge, s);
    var k := Opposite(c.order, x);
    TimesOfProduct(c, challenge, s, Base(c));
    TimesIsOnCurve(c, x, Base(c));
    TimesIsOnCurve(c, k, Base(c));
    SumAssociates(c, r, Times(c, x, Base(c)), Times(c, k, Base(c)));
    TimesOfSum(c, x, k, Base(c));
    OrderAt(c, Base(c), c.order, k + x);
    SumWithZero(c, r);
    t := response + k;
    TimesOfSum(c, response, k, Base(c));
  }

  /** Two challenges that solve one equation under such a key are equal, because the order is prime. */
  lemma OneChallenge(c: Curve, s: nat, r: Affine, x: nat, y: nat, response: nat)
    requires IsEd25519(c) && c.order > 1 && IsPrimeField(c.order) && OnCurve(c, r) && !Cong(c.order, s, 0) && x < c.order && y < c.order
    requires Times(c, response, Base(c)) == Sum(c, r, Times(c, x, Times(c, s, Base(c))))
    requires Times(c, response, Base(c)) == Sum(c, r, Times(c, y, Times(c, s, Base(c))))
    ensures x == y
  {
    hide IsPrimeField, AdditionLaw, HasConstants, HasOrder, Represents, OnCurve, Cong, Base, Sum, Times, Mul;
    BaseRepresents(c);
    var t := CommitmentIsMultiple(c, s, r, x, response);
    TimesOfProduct(c, x, s, Base(c));
    TimesOfProduct(c, y, s, Base(c));
    TimesOfSum(c, t, Mul(x, s), Base(c));
    TimesOfSum(c, t, Mul(y, s), Base(c));
    SameMultiples(c, t + Mul(x, s), t + Mul(y, s));
    CongRefl(c.order, t);
    CongSub(c.order, t + Mul(x, s), t + Mul(y, s), t, t);
    MulIsProduct(x, s);
    MulIsProduct(y, s);
    Cancel(c.order, x, y, s);
    CongInRange(c.order, x, y);
  }

  lemma SameMultiples(c: Curve, m: nat, n: nat)
    requires IsEd25519(c) && Times(c, m, Base(c)) == Times(c, n, Base(c))
    ensures Cong(c.order, m, n)
  {
    hide IsPrimeField, AdditionLaw, HasConstants, HasOrder, Times, Cong, Base;
    BaseRepresents(c);
    if m <= n {
      TimesIsInjective(c, Base(c), c.order, m, n);
      CongSym(c.order, n, m);
    } else {
      TimesIsInjective(c, Base(c), c.order, n, m);
    }
  }

  lemma PublicKeyParts(c: Curve, hash: Hash, seed: seq<Byte>)
    requires IsEd25519(c) && c.order > 1 && IsSha512(hash) && |seed| == 32
    ensures var s := SecretScalar(hash, seed);
            && PublicKey(c, hash, seed).Success? && !Cong(c.order, s, 0)
            && Encodes(c, PublicKey(c, hash, seed).value, Times(c, s, Base(c)))
  {
    hide IsPrimeField, AdditionLaw, HasConstants, HasOrder, OnCurve, Cong, Base, Times, Clamp, Encodes, Compress, Product,
         FromBytes, Half, TopBit;
    Bounds(c);
    var s := SecretScalar(hash, seed);
    MultipleOfBase(c, s);
    ClampInRange(FromBytes(hash(seed)[..32]));
    ClampIsNoMultiple(c, s);
  }

  /** A signature is of one message: one that a derived key accepts for a message it accepts for another exactly when the two hashes,
      of commitment, key and message, agree modulo the order of the group. */
  lemma SignatureBindsMessage(c: Curve, hash: Hash, seed: seq<Byte>, message: seq<Byte>, other: seq<Byte>, signature: seq<Byte>)
    requires IsEd25519(c) && c.order > 1 && IsPrimeField(c.order) && IsSha512(hash) && |seed| == 32
    requires PublicKey(c, hash, seed).Success? && Verify(c, hash, PublicKey(c, hash, seed).value, message, signature)
    ensures var front := signature[..32] + PublicKey(c, hash, seed).value;
            Verify(c, hash, PublicKey(c, hash, seed).value, other, signature)
            <==> FromBytes(hash(front + message)) % c.order == FromBytes(hash(front + other)) % c.order
  {
    hide IsPrimeField, AdditionLaw, HasConstants, HasOrder, OnCurve, Cong, Base, Times, Sum, FromBytes, Decompress, HasSmallOrder,
         Equal, Product, Add, PublicKey, HashToScalar, Encode, SecretScalar;
    var public := PublicKey(c, hash, seed).value;
    Ed25519HasCoding(c);
    PublicKeyParts(c, hash, seed);
    var s := SecretScalar(hash, seed);
    var a := Times(c, s, Base(c));
    var r := DecompressGives(c, signature[..32]);
    VerifyAt(c, hash, public, message, signature, a, r);
    VerifyAt(c, hash, public, other, signature, a, r);
    HashedScalar(c, hash, signature[..32] + public + message);
    HashedScalar(c, hash, signature[..32] + public + other);
    if Verify(c, hash, public, other, signature) {
      OneChallenge(c, s, r, Challenge(c, hash, public, message, signature), Challenge(c, hash, public, other, signature),
                   FromBytes(signature[32..]));
    }
  }

  lemma ResidueBelow(n: nat, order: nat)
    requires order > 0
    ensures n % order < order
  {
  }

  // ----- Key files -----

  /** The prefixes of an Ed25519 PKCS#8 private key: version 0, and version 1, which a public key follows. */
  const V0_PREFIX: seq<Byte> := [0x30, 0x2e, 0x02, 0x01, 0x00, 0x30, 0x05, 0x06, 0x03, 0x2b, 0x65, 0x70, 0x04, 0x22, 0x04, 0x20]
  const V1_PREFIX: seq<Byte> := [0x30, 0x51, 0x02, 0x01, 0x01, 0x30, 0x05, 0x06, 0x03, 0x2b, 0x65, 0x70, 0x04, 0x22, 0x04, 0x20]
  const PUBLIC_KEY_HEADER: seq<Byte> := [0x81, 0x21, 0x00]

  /** The prefixes are the headers of DER: each length octet counts the octets to the end of its element, the last is that of the
      seed, and the object identifier is that of Ed25519. */
  lemma PrefixesAreDer()
    ensures V0_PREFIX[..5] == [0x30, |V0_PREFIX| + 32 - 2, 0x02, 1, 0]
    ensures V1_PREFIX[..5] == [0x30, |V1_PREFIX| + 32 + |PUBLIC_KEY_HEADER| + 32 - 2, 0x02, 1, 1]
    ensures V0_PREFIX[5..] == V1_PREFIX[5..] == [0x30, 5, 0x06, 3, 0x2b, 0x65, 0x70, 0x04, 32 + 2, 0x04, 32]
    ensures PUBLIC_KEY_HEADER == [0x81, 32 + 1, 0]
  {
  }

  /** `seed_from_pkcs8`. */
  function SeedFromPkcs8(c: Curve, hash: Hash, document: seq<Byte>): Result<seq<Byte>, string>
    requires c.p > 2 && IsSha512(hash)
  {
    if |document| == |V0_PREFIX| + 32 && document[..|V0_PREFIX|] == V0_PREFIX then Success(document[|V0_PREFIX|..])
    else if |document| == |V1_PREFIX| + 32 + |PUBLIC_KEY_HEADER| + 32 && document[..|V1_PREFIX|] == V1_PREFIX then
      var seed_end := |V1_PREFIX| + 32;
      var seed := document[|V1_PREFIX|..seed_end];
      var header_end := seed_end + |PUBLIC_KEY_HEADER|;
      if document[seed_end..header_end] == PUBLIC_KEY_HEADER && PublicKey(c, hash, seed) == Success(document[header_end..])
      then Success(seed) else Failure("not an Ed25519 PKCS#8 private key")
    else Failure("not an Ed25519 PKCS#8 private key")
  }

  /** A document yields a seed exactly when it is one of the two layouts around that seed, the second with the seed's own
      public key. */
  lemma Pkcs8IsExact(c: Curve, hash: Hash, document: seq<Byte>, seed: seq<Byte>)
    requires IsEd25519(c) && IsSha512(hash)
    ensures SeedFromPkcs8(c, hash, document) == Success(seed) <==>
            |seed| == 32 &&
            (document == V0_PREFIX + seed ||
             document == V1_PREFIX + seed + PUBLIC_KEY_HEADER + PublicKey(c, hash, seed).value)
  {
    hide IsPrimeField, AdditionLaw, HasConstants, HasOrder, PublicKey, Half, Cong;
    if |seed| == 32 {
      DerivedKeysAreValid(c, hash, seed);
      PublicKeyLength(c, hash, seed);
      var public := PublicKey(c, hash, seed).value;
      var long := V1_PREFIX + seed + PUBLIC_KEY_HEADER + public;
      assert long[..16] == V1_PREFIX && long[16..48] == seed && long[48..51] == PUBLIC_KEY_HEADER && long[51..] == public;
      if |document| == 48 {
        assert document == document[..16] + document[16..];
      }
      if |document| == 83 {
        assert document == document[..16] + document[16..48] + document[48..51] + document[51..];
      }
    }
  }

  lemma PublicKeyLength(c: Curve, hash: Hash, seed: seq<Byte>)
    requires IsEd25519(c) && IsSha512(hash) && |seed| == 32
    ensures PublicKey(c, hash, seed).Success? && |PublicKey(c, hash, seed).value| == 32
  {
    hide IsPrimeField, AdditionLaw, HasConstants, HasOrder, Half, Cong, Compress, Product, Encodes, Times, Clamp;
    var s := SecretScalar(hash, seed);
    MultipleOfBase(c, s);
    EncodesGives(c, Compress(c, Product(c, s, c.base)), Times(c, s, Base(c)));
  }
}
