/**
 The Ed448 point decoder and verifier of src/mdecc/ed448.rs, over an abstract curve.
 RFC 8032, sections 5.2.3 (point decoding), 5.2.6 (signing) and 5.2.7 (verification).
 The loops and the incremental hashing are in module Ed448Verifier.
 */
module Ed448 {
  import opened Outcomes
  import opened Bytes
  import opened Modular
  import opened Groups

  const PUBLIC_KEY_SIZE: nat := 57
  const SIGNATURE_SIZE: nat := 114

  /** The field prime 2^448 - 2^224 - 1. */
  const FIELD_PRIME: nat :=
    0xfffffffffffffffffffffffffffffffffffffffffffffffffffffffeffffffffffffffffffffffffffffffffffffffffffffffffffffffff

  /**
   L, the prime order of the base point:
   2^446 - 13818066809895115352007386748515426880336692474882178609894547503885.
   */
  const ORDER: nat :=
    0x3fffffffffffffffffffffffffffffffffffffffffffffffffffffff7cca23e9c44edb49aed63690216cc2728dc58f552378c292ab5844f3

  /** The prime as the source spells it: 56 bytes of 0xff, the one at 28 lowered to 0xfe. */
  const FIELD_PRIME_LE: seq<byte> :=
    seq(28, i => 0xff) + [0xfe] + seq(27, i => 0xff)

  // ---- what is assumed of the curve library ----------------------------------

  /**
   Points with their affine coordinates and `decompress`, which reduces y modulo the prime
   and ignores the low seven bits of the last byte.
   */
  datatype Curve<!P> = Curve(
    group: Group<P>,
    order: pos,
    base: P,
    x: P -> nat,
    y: P -> nat,
    decompress: seq<byte> -> Option<P>)

  /** Minus a field element. */
  function Opposite(x: nat): nat
    requires x < FIELD_PRIME
  {
    if x == 0 then 0 else FIELD_PRIME - x
  }

  predicate CoordinatesAt<P(==)>(c: Curve<P>, p: P) {
    && c.x(p) < FIELD_PRIME && c.y(p) < FIELD_PRIME
    && c.x(c.group.neg(p)) == Opposite(c.x(p))
    && c.y(c.group.neg(p)) == c.y(p)
  }

  predicate CofactorAt<P(==)>(c: Curve<P>, p: P) {
    Mul(c.group, 4 * c.order, p) == c.group.zero
  }

  /** L divides the group order once, so the points it kills are the multiples of B. */
  ghost predicate CyclicAt<P>(c: Curve<P>, p: P) {
    Mul(c.group, c.order, p) == c.group.zero ==> exists n: nat :: Mul(c.group, n, c.base) == p
  }

  /** Coordinates determine the point, and y determines x up to its sign. */
  predicate PairAt<P(==)>(c: Curve<P>, p: P, q: P) {
    && c.x(q) < FIELD_PRIME
    && (c.x(p) == c.x(q) && c.y(p) == c.y(q) ==> p == q)
    && (c.y(p) == c.y(q) ==> c.x(p) == c.x(q) || c.x(p) == Opposite(c.x(q)))
  }

  function EncodedY(raw: seq<byte>): nat
    requires |raw| == PUBLIC_KEY_SIZE
  {
    FromLE(raw[..56])
  }

  predicate DecompressAt<P>(c: Curve<P>, raw: seq<byte>, p: P)
    requires |raw| == PUBLIC_KEY_SIZE
  {
    match c.decompress(raw)
    case Some(q) =>
      c.y(q) == EncodedY(raw) % FIELD_PRIME && (c.x(q) == 0 || c.x(q) % 2 == raw[56] / 128)
    case None =>
      c.y(p) != EncodedY(raw) % FIELD_PRIME
  }

  /** n stays below a quarter of any power of 256 from the 56th on: it has at most 446 bits. */
  predicate WidthAt(n: pos, bytes: nat) {
    bytes >= 56 ==> 4 * n < Pow256(bytes)
  }

  /** What the proofs use of L: an odd prime below 2^446. */
  ghost predicate OrderLaws(n: pos) {
    Prime(n) && n % 2 == 1 && forall bytes: nat :: WidthAt(n, bytes)
  }

  /** The constant L meets the laws, its primality being taken from RFC 8032. */
  lemma OrderConstant()
    requires Prime(ORDER)
    ensures OrderLaws(ORDER)
  {
    hide Prime, Pow256;
    Widths();
    forall bytes: nat
      ensures WidthAt(ORDER, bytes)
    {
      if bytes >= 56 {
        Pow256Monotonic(56, bytes);
      }
    }
  }

  /** The secret scalars of section 5.2.5 of RFC 8032: bits 0 and 1 clear, bit 447 set, nothing above. */
  predicate Clamped(a: nat) {
    a % 4 == 0 && 128 * Pow256(55) <= a < Pow256(56)
  }

  lemma ClampedBounds()
    ensures 128 * Pow256(55) < 4 * ORDER < Pow256(56) == 256 * Pow256(55)
  {
    hide Pow256;
    Widths();
    PowStep(55);
  }

  /** Exactly one clamped scalar is zero modulo L, namely 4L. */
  lemma ClampedZero(a: nat)
    requires Clamped(a)
    ensures a % ORDER == 0 <==> a == 4 * ORDER
  {
    hide Pow256;
    ClampedBounds();
    FourfoldMultiple(ORDER, a, 128 * Pow256(55));
  }

  lemma FourOrderIsClamped()
    ensures Clamped(4 * ORDER)
  {
    hide Pow256;
    ClampedBounds();
  }

  /** L as RFC 8032 gives it, in section 5.2. */
  lemma OrderValue()
    ensures ORDER == 64 * Pow256(55) - 13818066809895115352007386748515426880336692474882178609894547503885
  {
    hide Pow256;
    Widths();
    PowStep(55);
  }

  ghost predicate Lawful<P(!new)>(c: Curve<P>) {
    && IsGroup(c.group)
    && OrderLaws(c.order)
    && c.base != c.group.zero
    && Mul(c.group, c.order, c.base) == c.group.zero
    && (forall p :: CoordinatesAt(c, p))
    && (forall p :: CofactorAt(c, p))
    && (forall p :: CyclicAt(c, p))
    && (forall p, q :: PairAt(c, p, q))
    && (forall raw: seq<byte>, p | |raw| == PUBLIC_KEY_SIZE :: DecompressAt(c, raw, p))
  }

  lemma OrderFacts<P(!new)>(c: Curve<P>)
    requires Lawful(c)
    ensures OrderLaws(c.order)
  {
  }

  // ---- point decoding -----------------------------------------------------------

  function Double<P>(c: Curve<P>, p: P): P {
    c.group.add(p, p)
  }

  /** [4]P = O: the identity and the torsion points. */
  predicate SmallOrder<P(==)>(c: Curve<P>, p: P) {
    Double(c, Double(c, p)) == c.group.zero
  }

  function CanonicalPoint<P(==)>(c: Curve<P>, raw: seq<byte>): Result<P, CryptoError>
    requires |raw| == PUBLIC_KEY_SIZE
  {
    if raw[56] % 128 != 0 then Err(CurveError)
    else if EncodedY(raw) >= FIELD_PRIME then Err(CurveError)
    else match c.decompress(raw)
      case None => Err(CurveError)
      case Some(p) => if SmallOrder(c, p) then Err(CurveError) else Ok(p)
  }

  /** The encoding of section 5.2.2 of RFC 8032: y, then the parity of x in the top bit. */
  function EncodePoint<P>(c: Curve<P>, p: P): (raw: seq<byte>)
    ensures |raw| == PUBLIC_KEY_SIZE
  {
    ToLE(c.y(p), 56) + [128 * (c.x(p) % 2)]
  }

  /** (u - 1) + u * (u - 2) = u^2 - u - 1. */
  lemma PrimeShape(u: nat)
    requires u >= 2
    ensures (u - 1) + u * (u - 2) == u * u - u - 1
  {
  }

  lemma {:induction false} AllOnes(s: seq<byte>)
    requires forall i | 0 <= i < |s| :: s[i] == 0xff
    ensures FromLE(s) == Pow256(|s|) - 1
  {
    if s == [] {
    } else {
      AllOnes(s[1..]);
    }
  }

  /** The byte constant is the field prime. */
  lemma FieldPrimeValue()
    ensures |FIELD_PRIME_LE| == 56
    ensures FIELD_PRIME == Pow256(56) - Pow256(28) - 1
    ensures FromLE(FIELD_PRIME_LE) == FIELD_PRIME
  {
    hide FromLE, Pow256;
    var low, high := FIELD_PRIME_LE[..28], FIELD_PRIME_LE[28..];
    AllOnes(low);
    AllOnes(high[1..]);
    LEHead(high);
    LESplit(FIELD_PRIME_LE, 28);
    PowStep(27);
    PrimeShape(Pow256(28));
    Widths();
  }

  lemma MulFour<P(!new)>(c: Curve<P>, p: P)
    requires IsGroup(c.group)
    ensures Mul(c.group, 4, p) == Double(c, Double(c, p))
  {
    MulOne(c.group, p);
    MulAdd(c.group, 1, 1, p);
    MulAdd(c.group, 2, 2, p);
  }

  /** A point with x = 0 is its own negative, so it has small order. */
  lemma ZeroXIsSmallOrder<P(!new)>(c: Curve<P>, p: P)
    requires Lawful(c) && c.x(p) == 0
    ensures SmallOrder(c, p)
  {
    var n := c.group.neg(p);
    assert CoordinatesAt(c, p);
    assert PairAt(c, n, p);
    Inverse(c.group, p);
    Unit(c.group, c.group.zero);
  }

  /** What is accepted is the encoding of the point it decodes to. */
  lemma DecodedIsEncoded<P(!new)>(c: Curve<P>, raw: seq<byte>)
    requires Lawful(c) && |raw| == PUBLIC_KEY_SIZE && CanonicalPoint(c, raw).Ok?
    ensures var p := CanonicalPoint(c, raw).value;
            raw == EncodePoint(c, p) && !SmallOrder(c, p)
  {
    hide FromLE, ToLE, SmallOrder;
    var p := CanonicalPoint(c, raw).value;
    assert DecompressAt(c, raw, p);
    if c.x(p) == 0 {
      ZeroXIsSmallOrder(c, p);
    }
    ToFromLE(raw[..56]);
    assert raw == raw[..56] + [raw[56]];
  }

  /** Of x and -x only one has a given parity, the prime being odd. */
  lemma ParityDecides(x: nat, x': nat)
    requires 0 < x < FIELD_PRIME && 0 < x' < FIELD_PRIME && x % 2 == x' % 2
    requires x' == x || x' == Opposite(x)
    ensures x' == x
  {
  }

  lemma EncodedFields<P(!new)>(c: Curve<P>, p: P)
    requires CoordinatesAt(c, p)
    ensures var raw := EncodePoint(c, p);
            EncodedY(raw) == c.y(p) && raw[56] % 128 == 0 && raw[56] / 128 == c.x(p) % 2
  {
    hide ToLE, FromLE, Pow256;
    FieldPrimeValue();
    FromToLE(c.y(p), 56);
    assert EncodePoint(c, p)[..56] == ToLE(c.y(p), 56);
  }

  /** The encoding of a point that is not of small order decodes to that point. */
  lemma EncodedIsDecoded<P(!new)>(c: Curve<P>, p: P)
    requires Lawful(c) && !SmallOrder(c, p)
    ensures CanonicalPoint(c, EncodePoint(c, p)) == Ok(p)
  {
    hide FromLE, ToLE, SmallOrder;
    var raw := EncodePoint(c, p);
    assert CoordinatesAt(c, p);
    EncodedFields(c, p);
    assert DecompressAt(c, raw, p);
    var q := c.decompress(raw).value;
    assert CoordinatesAt(c, q);
    assert PairAt(c, q, p);
    if c.x(p) == 0 {
      ZeroXIsSmallOrder(c, p);
    }
    if c.x(q) != 0 {
      ParityDecides(c.x(p), c.x(q));
    }
  }

  /**
   The decoder accepts exactly the RFC 8032 encodings of the points that are not of small
   order, each as the point it encodes. The x = 0 case of section 5.2.3 is covered by the
   torsion guard.
   */
  lemma DecodesExactly<P(!new)>(c: Curve<P>, raw: seq<byte>, p: P)
    requires Lawful(c) && |raw| == PUBLIC_KEY_SIZE
    ensures CanonicalPoint(c, raw) == Ok(p) <==> raw == EncodePoint(c, p) && !SmallOrder(c, p)
  {
    hide CanonicalPoint, EncodePoint, SmallOrder;
    if CanonicalPoint(c, raw) == Ok(p) {
      DecodedIsEncoded(c, raw);
    }
    if raw == EncodePoint(c, p) && !SmallOrder(c, p) {
      EncodedIsDecoded(c, p);
    }
  }

  /** Four times any point is killed by L. */
  lemma FourTimes<P(!new)>(c: Curve<P>, a: P)
    requires Lawful(c)
    ensures Mul(c.group, c.order, Mul(c.group, 4, a)) == c.group.zero
    ensures SmallOrder(c, a) <==> Mul(c.group, 4, a) == c.group.zero
  {
    MulMul(c.group, c.order, 4, a);
    assert CofactorAt(c, a);
    MulFour(c, a);
  }

  /** The same with encoding and guard written out: y in 56 bytes, the parity of x on top, [4]P not O. */
  lemma DecodesAsWritten<P(!new)>(c: Curve<P>, raw: seq<byte>, p: P)
    requires Lawful(c) && |raw| == 57
    ensures CanonicalPoint(c, raw) == Ok(p) <==>
              raw == ToLE(c.y(p), 56) + [128 * (c.x(p) % 2)] && Mul(c.group, 4, p) != c.group.zero
  {
    hide CanonicalPoint, ToLE, SmallOrder, Mul;
    DecodesExactly(c, raw, p);
    FourTimes(c, p);
  }

  /** Two encodings of one point are equal. */
  lemma DecodingInjective<P(!new)>(c: Curve<P>, raw: seq<byte>, raw': seq<byte>)
    requires Lawful(c) && |raw| == |raw'| == PUBLIC_KEY_SIZE
    requires CanonicalPoint(c, raw).Ok? && CanonicalPoint(c, raw) == CanonicalPoint(c, raw')
    ensures raw == raw'
  {
    hide CanonicalPoint, EncodePoint;
    DecodesExactly(c, raw, CanonicalPoint(c, raw).value);
    DecodesExactly(c, raw', CanonicalPoint(c, raw).value);
  }

  // ---- the verification equation --------------------------------------------------

  /** [4]([S]B - [k]A - R) = O, as the verifier evaluates it. */
  predicate Equation<P(==)>(c: Curve<P>, s: nat, k: nat, a: P, r: P) {
    var sb := Mul(c.group, s, c.base);
    var ka := Mul(c.group, k, a);
    SmallOrder(c, c.group.add(c.group.add(sb, c.group.neg(ka)), c.group.neg(r)))
  }

  /** The equation of section 5.2.7 of RFC 8032: [4][S]B = [4]R + [4][k]A. */
  predicate RfcEquation<P(==)>(c: Curve<P>, s: nat, k: nat, a: P, r: P) {
    Mul(c.group, 4, Mul(c.group, s, c.base))
    == c.group.add(Mul(c.group, 4, r), Mul(c.group, 4, Mul(c.group, k, a)))
  }

  lemma EquationIsRfc<P(!new)>(c: Curve<P>, s: nat, k: nat, a: P, r: P)
    requires Lawful(c)
    ensures Equation(c, s, k, a, r) <==> RfcEquation(c, s, k, a, r)
  {
    var g := c.group;
    var sb, ka := Mul(g, s, c.base), Mul(g, k, a);
    var d := g.add(g.add(sb, g.neg(ka)), g.neg(r));
    MulFour(c, d);
    // d = sb - (ka + r)
    Assoc(g, sb, g.neg(ka), g.neg(r));
    NegOfSum(g, ka, r);
    assert d == g.add(sb, g.neg(g.add(ka, r)));
    MulOfSum(g, 4, sb, g.neg(g.add(ka, r)));
    MulOfNeg(g, 4, g.add(ka, r));
    DifferenceZero(g, Mul(g, 4, sb), Mul(g, 4, g.add(ka, r)));
    MulOfSum(g, 4, ka, r);
    Comm(g, Mul(g, 4, ka), Mul(g, 4, r));
  }

  /** One (S, R) under two challenges: [k1]([4]A) = [k2]([4]A). */
  lemma TwoChallenges<P(!new)>(c: Curve<P>, s: nat, k1: nat, k2: nat, a: P, r: P)
    requires Lawful(c) && Equation(c, s, k1, a, r)
    ensures Equation(c, s, k2, a, r)
       <==> Mul(c.group, k1, Mul(c.group, 4, a)) == Mul(c.group, k2, Mul(c.group, 4, a))
  {
    hide Equation;
    var g := c.group;
    EquationIsRfc(c, s, k1, a, r);
    EquationIsRfc(c, s, k2, a, r);
    MulSwap(g, 4, k1, a);
    MulSwap(g, 4, k2, a);
    if Equation(c, s, k2, a, r) {
      CancelLeft(g, Mul(g, 4, r), Mul(g, 4, Mul(g, k1, a)), Mul(g, 4, Mul(g, k2, a)));
    }
  }

  /** An accepted key fixes the challenge: (S, R) satisfies the equation for at most one k modulo L. */
  lemma ChallengeUnique<P(!new)>(c: Curve<P>, s: nat, k1: nat, k2: nat, a: P, r: P)
    requires Lawful(c) && !SmallOrder(c, a)
    requires Equation(c, s, k1, a, r)
    ensures Equation(c, s, k2, a, r) <==> k1 % c.order == k2 % c.order
  {
    hide Equation, SmallOrder;
    FourTimes(c, a);
    TwoChallenges(c, s, k1, k2, a, r);
    EqualMultiples(c.group, c.order, k1, k2, Mul(c.group, 4, a));
  }

  /** A key of small order makes the equation ignore the challenge altogether. */
  lemma SmallOrderIgnoresChallenge<P(!new)>(c: Curve<P>, s: nat, k1: nat, k2: nat, a: P, r: P)
    requires Lawful(c) && SmallOrder(c, a)
    ensures Equation(c, s, k1, a, r) <==> Equation(c, s, k2, a, r)
  {
    hide Equation, SmallOrder;
    FourTimes(c, a);
    MulOfZero(c.group, k1);
    MulOfZero(c.group, k2);
    if Equation(c, s, k1, a, r) {
      TwoChallenges(c, s, k1, k2, a, r);
    }
    if Equation(c, s, k2, a, r) {
      TwoChallenges(c, s, k2, k1, a, r);
    }
  }

  /** Whatever the challenge, S = 1 and R = B satisfy the equation under a key of small order. */
  lemma SmallOrderForgery<P(!new)>(c: Curve<P>, k: nat, a: P)
    requires Lawful(c) && SmallOrder(c, a)
    ensures Equation(c, 1, k, a, c.base)
  {
    hide Equation, SmallOrder;
    var g := c.group;
    SmallOrderIgnoresChallenge(c, 1, 0, k, a, c.base);
    EquationIsRfc(c, 1, 0, a, c.base);
    MulOne(g, c.base);
    MulOfZero(g, 4);
    Unit(g, Mul(g, 4, c.base));
  }

  /** A multiple of the base point is of small order exactly when L divides the multiplier. */
  lemma SubgroupSmallOrder<P(!new)>(c: Curve<P>, n: nat)
    requires Lawful(c)
    ensures SmallOrder(c, Mul(c.group, n, c.base)) <==> n % c.order == 0
  {
    hide SmallOrder;
    FourTimes(c, Mul(c.group, n, c.base));
    MulMul(c.group, 4, n, c.base);
    PrimeOrder(c.group, c.order, 4 * n, c.base);
    OddIgnoresFour(c.order, n);
  }

  lemma BaseIsNotSmall<P(!new)>(c: Curve<P>)
    requires Lawful(c)
    ensures 1 < c.order && !SmallOrder(c, c.base)
  {
    hide SmallOrder;
    OrderFacts(c);
    SubgroupSmallOrder(c, 1);
    MulOne(c.group, c.base);
    ModSmall(1, c.order);
  }

  /** For S and R that pass their own checks, (S, R) determines the challenge modulo L. */
  ghost predicate BindsAccepted<P(!new)>(c: Curve<P>, a: P) {
    forall s: nat, k1: nat, k2: nat, r |
      s < c.order && !SmallOrder(c, r) && Equation(c, s, k1, a, r) && Equation(c, s, k2, a, r)
    :: k1 % c.order == k2 % c.order
  }

  /** The torsion guard on keys is exactly the condition under which accepted signatures bind the challenge. */
  lemma TorsionGuardExact<P(!new)>(c: Curve<P>, a: P)
    requires Lawful(c)
    ensures BindsAccepted(c, a) <==> !SmallOrder(c, a)
  {
    hide Equation, SmallOrder;
    if !SmallOrder(c, a) {
      forall s: nat, k1: nat, k2: nat, r | Equation(c, s, k1, a, r) && Equation(c, s, k2, a, r)
        ensures k1 % c.order == k2 % c.order
      {
        ChallengeUnique(c, s, k1, k2, a, r);
      }
    } else {
      BaseIsNotSmall(c);
      SmallOrderForgery(c, 0, a);
      SmallOrderForgery(c, 1, a);
      ModSmall(0, c.order);
      ModSmall(1, c.order);
    }
  }

  lemma FourTimesWithTorsion<P(!new)>(c: Curve<P>, p: P, k: nat, t: P)
    requires Lawful(c) && SmallOrder(c, t)
    ensures Mul(c.group, 4, c.group.add(p, Mul(c.group, k, t))) == Mul(c.group, 4, p)
  {
    hide SmallOrder, Mul;
    var g := c.group;
    FourTimes(c, t);
    MulSwap(g, 4, k, t);
    MulOfZero(g, k);
    MulOfSum(g, 4, p, Mul(g, k, t));
    Unit(g, Mul(g, 4, p));
  }

  /** The cofactor hides torsion: adding a point of small order to the key or to R changes no verdict. */
  lemma TorsionInvisible<P(!new)>(c: Curve<P>, s: nat, k: nat, a: P, r: P, t: P)
    requires Lawful(c) && SmallOrder(c, t)
    ensures Equation(c, s, k, c.group.add(a, t), r) <==> Equation(c, s, k, a, r)
    ensures Equation(c, s, k, a, c.group.add(r, t)) <==> Equation(c, s, k, a, r)
  {
    hide Equation, SmallOrder, Mul, IsGroup;
    var g := c.group;
    EquationIsRfc(c, s, k, a, r);
    EquationIsRfc(c, s, k, g.add(a, t), r);
    EquationIsRfc(c, s, k, a, g.add(r, t));
    MulOfSum(g, k, a, t);
    FourTimesWithTorsion(c, Mul(g, k, a), k, t);
    FourTimesWithTorsion(c, r, 1, t);
    MulOne(g, t);
  }

  /** Reducing the challenge modulo L, as the verifier does, never changes the verdict. */
  lemma ReducedChallenge<P(!new)>(c: Curve<P>, s: nat, k: nat, a: P, r: P)
    requires Lawful(c)
    ensures Equation(c, s, k % c.order, a, r) <==> Equation(c, s, k, a, r)
  {
    hide Equation, SmallOrder;
    if SmallOrder(c, a) {
      SmallOrderIgnoresChallenge(c, s, k % c.order, k, a, r);
    } else {
      ModIdempotent(k, c.order);
      if Equation(c, s, k, a, r) {
        ChallengeUnique(c, s, k, k % c.order, a, r);
      }
      if Equation(c, s, k % c.order, a, r) {
        ChallengeUnique(c, s, k % c.order, k, a, r);
      }
    }
  }

  /** For fixed key, challenge and R there is at most one reduced S. */
  lemma ScalarUnique<P(!new)>(c: Curve<P>, s1: nat, s2: nat, k: nat, a: P, r: P)
    requires Lawful(c) && s1 < c.order && s2 < c.order
    requires Equation(c, s1, k, a, r) && Equation(c, s2, k, a, r)
    ensures s1 == s2
  {
    hide Equation, Mul, IsGroup;
    var g := c.group;
    EquationIsRfc(c, s1, k, a, r);
    EquationIsRfc(c, s2, k, a, r);
    MulMul(g, 4, s1, c.base);
    MulMul(g, 4, s2, c.base);
    EqualMultiples(g, c.order, 4 * s1, 4 * s2, c.base);
    CongruentFour(s1, s2, c.order);
    ModSmall(s1, c.order);
    ModSmall(s2, c.order);
  }

  /** Four times R + [k]A is a multiple of the base point, whatever torsion R and A carry. */
  lemma RightSideInSubgroup<P(!new)>(c: Curve<P>, k: nat, a: P, r: P) returns (m: nat)
    requires Lawful(c)
    ensures Mul(c.group, m, c.base) == c.group.add(Mul(c.group, 4, r), Mul(c.group, 4, Mul(c.group, k, a)))
  {
    hide Mul, IsGroup;
    var g := c.group;
    var sum := g.add(r, Mul(g, k, a));
    FourTimes(c, sum);
    MulOfSum(g, 4, r, Mul(g, k, a));
    assert CyclicAt(c, Mul(g, 4, sum));
    m :| Mul(g, m, c.base) == Mul(g, 4, sum);
  }

  /** Every key, R and challenge has exactly one reduced S that satisfies the equation. */
  lemma ExactlyOneScalar<P(!new)>(c: Curve<P>, k: nat, a: P, r: P) returns (s: nat)
    requires Lawful(c)
    ensures s < c.order && forall t: nat | t < c.order :: Equation(c, t, k, a, r) <==> t == s
  {
    hide Equation, Mul, IsGroup;
    var m := RightSideInSubgroup(c, k, a, r);
    s := QuarterOf(m, c.order);
    MulMul(c.group, 4, s, c.base);
    EqualMultiples(c.group, c.order, 4 * s, m, c.base);
    EquationIsRfc(c, s, k, a, r);
    forall t: nat | t < c.order && Equation(c, t, k, a, r)
      ensures t == s
    {
      ScalarUnique(c, s, t, k, a, r);
    }
  }

  lemma RfcRightSide<P(!new)>(c: Curve<P>, r: nat, n: nat)
    requires Lawful(c)
    ensures c.group.add(Mul(c.group, 4, Mul(c.group, r, c.base)), Mul(c.group, 4, Mul(c.group, n, c.base)))
         == Mul(c.group, 4 * (r + n), c.base)
  {
    hide Mul, IsGroup;
    MulMul(c.group, 4, r, c.base);
    MulMul(c.group, 4, n, c.base);
    MulAdd(c.group, 4 * r, 4 * n, c.base);
  }

  /** [4][s]B = [4][r]B + [4][n]B exactly when s = r + n modulo L. */
  lemma MultiplesOfBase<P(!new)>(c: Curve<P>, s: nat, r: nat, n: nat)
    requires Lawful(c)
    ensures Mul(c.group, 4, Mul(c.group, s, c.base))
         == c.group.add(Mul(c.group, 4, Mul(c.group, r, c.base)), Mul(c.group, 4, Mul(c.group, n, c.base)))
       <==> s % c.order == (r + n) % c.order
  {
    hide Mul, IsGroup;
    RfcRightSide(c, r, n);
    MulMul(c.group, 4, s, c.base);
    EqualMultiples(c.group, c.order, 4 * s, 4 * (r + n), c.base);
    CongruentFour(s, r + n, c.order);
  }

  lemma EquationOfMultiples<P(!new)>(c: Curve<P>, s: nat, k: nat, a: P, n: nat, r: nat)
    requires Lawful(c) && Mul(c.group, k, a) == Mul(c.group, n, c.base)
    ensures Equation(c, s, k, a, Mul(c.group, r, c.base)) <==> s % c.order == (r + n) % c.order
  {
    hide Equation, Mul, Lawful;
    EquationIsRfc(c, s, k, a, Mul(c.group, r, c.base));
    MultiplesOfBase(c, s, r, n);
  }

  /** In the prime-order subgroup the equation is S = r + k * a modulo L. */
  lemma EquationInSubgroup<P(!new)>(c: Curve<P>, s: nat, k: nat, a: nat, r: nat)
    requires Lawful(c)
    ensures Equation(c, s, k, Mul(c.group, a, c.base), Mul(c.group, r, c.base))
       <==> s % c.order == (r + k * a) % c.order
  {
    hide Equation, Mul, IsGroup;
    MulMul(c.group, k, a, c.base);
    EquationOfMultiples(c, s, k, Mul(c.group, a, c.base), k * a, r);
  }
}
