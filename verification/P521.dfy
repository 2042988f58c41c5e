/**
 P-521 ECDSA as wrapped by src/mdecc/p521.rs: fixed-width signatures in low-S form, signing
 and verification over an abstract group of prime order, and the scalar derivation loop.
 The curve formulas of the `p521` crate are not part of this model.
 */
module P521 {
  import opened Outcomes
  import opened Bytes
  import opened Modular
  import opened Groups

  const PRIVATE_KEY_SIZE: nat := 66
  const PUBLIC_KEY_SIZE: nat := 133
  const SIGNATURE_SIZE: nat := 132
  const SEED_SIZE: nat := 66

  /** The prime order n of the P-521 group. */
  const ORDER: nat :=
    0x1fffffffffffffffffffffffffffffffffffffffffffffffffffffffffffffffffa51868783bf2f966b7fcc0148f709a5d03bb5c9b8899c47aebb6fb71e91386409

  /** The field prime 2^521 - 1. */
  const FIELD_PRIME: nat :=
    0x1ffffffffffffffffffffffffffffffffffffffffffffffffffffffffffffffffffffffffffffffffffffffffffffffffffffffffffffffffffffffffffffffffff

  // ---- what is assumed of the curve library -----------------------------------

  datatype Curve<!P> = Curve(
    group: Group<P>,
    order: pos,
    field: pos,               // the field prime
    generator: P,
    x: P -> nat,              // affine x-coordinate
    invert: nat -> nat,       // inverse of a scalar modulo n
    messageScalar: seq<byte> -> nat,    // the hashed message as a scalar
    fromSec1: seq<byte> -> Option<P>,   // point decoding, on-curve check included
    toSec1: P -> seq<byte>)   // uncompressed form

  predicate PointAt<P(==)>(c: Curve<P>, p: P) {
    && Mul(c.group, c.order, p) == c.group.zero
    && c.x(c.group.neg(p)) == c.x(p) < c.field
    && |c.toSec1(p)| == PUBLIC_KEY_SIZE
    && (p != c.group.zero ==> c.fromSec1(c.toSec1(p)) == Some(p))
  }

  /** An x-coordinate determines the point up to its sign. */
  predicate PairAt<P(==)>(c: Curve<P>, p: P, q: P) {
    p != c.group.zero && q != c.group.zero && c.x(p) == c.x(q) ==> p == q || p == c.group.neg(q)
  }

  predicate InvertAt<P>(c: Curve<P>, s: nat) {
    0 < s < c.order ==> 0 < c.invert(s) < c.order && (s * c.invert(s)) % c.order == 1
  }

  /** n needs more than 64 bytes and fits in 66. */
  predicate WidthAt(n: pos, bytes: nat) {
    && (bytes <= 64 ==> Pow256(bytes) < n)
    && (bytes >= 66 ==> n < Pow256(bytes))
  }

  /** What the proofs use of n: an odd prime of that width. */
  ghost predicate OrderLaws(n: pos) {
    Prime(n) && n % 2 == 1 && forall bytes: nat :: WidthAt(n, bytes)
  }

  /** The constants meet the laws, the primality of n being taken from FIPS 186-4. */
  lemma OrderConstant()
    requires Prime(ORDER)
    ensures OrderLaws(ORDER) && FIELD_PRIME < 2 * ORDER
  {
    hide Prime, Pow256;
    Widths();
    PowStep(64);
    PowStep(65);
    forall bytes: nat
      ensures WidthAt(ORDER, bytes)
    {
      if bytes <= 64 {
        Pow256Monotonic(bytes, 64);
      } else if bytes >= 66 {
        Pow256Monotonic(66, bytes);
      }
    }
  }

  /** p = 2^521 - 1, and n in decimal, as FIPS 186-4 gives them in section D.1.2.5. */
  lemma ConstantValues()
    ensures FIELD_PRIME == 2 * Pow256(65) - 1
    ensures ORDER == 6864797660130609714981900799081393217269435300143305409394463459185543183397655394245057746333217197532963996371363321113864768612440380340372808892707005449
  {
    hide Pow256;
    Widths();
    PowStep(64);
  }

  ghost predicate Lawful<P(!new)>(c: Curve<P>) {
    && IsGroup(c.group)
    && OrderLaws(c.order) && c.field < 2 * c.order
    && c.generator != c.group.zero
    && (forall p :: PointAt(c, p))
    && (forall p, q :: PairAt(c, p, q))
    && (forall s :: InvertAt(c, s))
  }

  lemma OrderFacts<P(!new)>(c: Curve<P>)
    requires Lawful(c)
    ensures OrderLaws(c.order)
  {
  }

  // ---- signatures as bytes --------------------------------------------------------

  predicate Scalar<P>(c: Curve<P>, n: nat) {
    0 < n < c.order
  }

  /** `Signature::from_slice`: two 66-byte big-endian scalars, neither zero nor unreduced. */
  function ParseSignature<P>(c: Curve<P>, raw: seq<byte>): Option<(nat, nat)> {
    if |raw| != SIGNATURE_SIZE then None
    else
      var r, s := FromBE(raw[..66]), FromBE(raw[66..]);
      if Scalar(c, r) && Scalar(c, s) then Some((r, s)) else None
  }

  function SignatureBytes(r: nat, s: nat): (raw: seq<byte>)
    ensures |raw| == SIGNATURE_SIZE
  {
    ToFixedBE(r, 66) + ToFixedBE(s, 66)
  }

  /** Each pair of scalars has exactly one accepted form. */
  lemma ParsesExactly<P(!new)>(c: Curve<P>, raw: seq<byte>, r: nat, s: nat)
    requires OrderLaws(c.order)
    ensures ParseSignature(c, raw) == Some((r, s)) <==> Scalar(c, r) && Scalar(c, s) && raw == SignatureBytes(r, s)
  {
    hide FromBE, ToFixedBE, Pow256;
    assert WidthAt(c.order, 66);
    if ParseSignature(c, raw) == Some((r, s)) {
      ToFixedFromBE(raw[..66]);
      ToFixedFromBE(raw[66..]);
      assert raw == raw[..66] + raw[66..];
    }
    if Scalar(c, r) && Scalar(c, s) && raw == SignatureBytes(r, s) {
      FromToFixedBE(r, 66);
      FromToFixedBE(s, 66);
      assert raw[..66] == ToFixedBE(r, 66) && raw[66..] == ToFixedBE(s, 66);
    }
  }

  // ---- verification -----------------------------------------------------------------

  /** The point whose x-coordinate must be r: [z/s]G + [r/s]Q. */
  function EcdsaPoint<P>(c: Curve<P>, q: P, z: nat, r: nat, s: nat): P {
    var w := c.invert(s);
    c.group.add(Mul(c.group, (z * w) % c.order, c.generator), Mul(c.group, (r * w) % c.order, q))
  }

  predicate EcdsaValid<P(==)>(c: Curve<P>, q: P, z: nat, r: nat, s: nat) {
    var point := EcdsaPoint(c, q, z, r, s);
    point != c.group.zero && c.x(point) % c.order == r
  }

  /** `normalize_s` changes exactly the scalars above n / 2. */
  predicate IsHigh<P>(c: Curve<P>, s: nat) {
    s > c.order / 2
  }

  function NormalizeS<P>(c: Curve<P>, s: nat): Option<nat>
    requires Scalar(c, s)
  {
    if IsHigh(c, s) then Some(c.order - s) else None
  }

  function VerifySig<P(==)>(c: Curve<P>, q: P, msg: seq<byte>, signature: seq<byte>): Result<(), CryptoError> {
    match ParseSignature(c, signature)
    case None => Err(SignatureError)
    case Some((r, s)) =>
      if NormalizeS(c, s).Some? then Err(SignatureError)
      else if EcdsaValid(c, q, c.messageScalar(msg), r, s) then Ok(())
      else Err(SignatureError)
  }

  // ---- signing ----------------------------------------------------------------------

  /** The pair the library computes from the secret d and the random nonce k. */
  function RawSignature<P>(c: Curve<P>, d: nat, k: nat, z: nat): (nat, nat) {
    var r := c.x(Mul(c.group, k, c.generator)) % c.order;
    (r, (c.invert(k) * (z + r * d)) % c.order)
  }

  /** A nonce the library keeps: it draws again while r or s is zero. */
  predicate GoodNonce<P>(c: Curve<P>, d: nat, k: nat, msg: seq<byte>) {
    var (r, s) := RawSignature(c, d, k, c.messageScalar(msg));
    Scalar(c, k) && r != 0 && s != 0
  }

  function SignMsg<P>(c: Curve<P>, d: nat, k: nat, msg: seq<byte>): (signature: seq<byte>)
    requires GoodNonce(c, d, k, msg)
    ensures |signature| == SIGNATURE_SIZE
  {
    var (r, s) := RawSignature(c, d, k, c.messageScalar(msg));
    SignatureBytes(r, NormalizeS(c, s).UnwrapOr(s))
  }

  function PublicPoint<P>(c: Curve<P>, d: nat): P {
    Mul(c.group, d, c.generator)
  }

  // ---- the sign of s ----------------------------------------------------------------

  /** Negating s negates both multipliers. */
  lemma NegatedMultiplier(a: nat, w: nat, n: pos)
    requires 0 < w < n
    ensures (a * (n - w)) % n == (n - (a * w) % n) % n
  {
    var m, q := (a * w) % n, (a * w) / n;
    assert a * w == n * q + m;
    assert a * (n - w) == a * n - a * w;
    assert a * (n - w) == (n - m) + (a - q - 1) * n;
    ModAddMultiple(n - m, a - q - 1, n);
  }

  lemma NegatedMultiple<P(!new)>(c: Curve<P>, a: nat, w: nat, p: P)
    requires Lawful(c) && 0 < w < c.order
    ensures Mul(c.group, (a * (c.order - w)) % c.order, p) == c.group.neg(Mul(c.group, (a * w) % c.order, p))
  {
    hide Mul, IsGroup;
    assert PointAt(c, p);
    var m := (a * w) % c.order;
    NegatedMultiplier(a, w, c.order);
    MulNegMod(c.group, m, c.order, p);
    MulMod(c.group, c.order - m, c.order, p);
  }

  /** The inverse of -s is -(inverse of s). */
  lemma NegatedInverse(n: pos, s: nat, w: nat, i: nat)
    requires 0 < s < n && 0 < w < n && i < n && (s * w) % n == 1 && ((n - s) * i) % n == 1
    ensures i == n - w
  {
    var k := n - s - w;
    assert (n - s) * (n - w) == s * w + k * n;
    ModAddMultiple(s * w, k, n);
    TwoInverses(n, n - s, n - w, i);
  }

  lemma InvertNegation<P(!new)>(c: Curve<P>, s: nat)
    requires Lawful(c) && Scalar(c, s)
    ensures 0 < c.invert(s) < c.order && c.invert(c.order - s) == c.order - c.invert(s)
  {
    assert InvertAt(c, s) && InvertAt(c, c.order - s);
    NegatedInverse(c.order, s, c.invert(s), c.invert(c.order - s));
  }

  lemma NegatedPoint<P(!new)>(c: Curve<P>, q: P, z: nat, r: nat, s: nat)
    requires Lawful(c) && Scalar(c, s)
    ensures EcdsaPoint(c, q, z, r, c.order - s) == c.group.neg(EcdsaPoint(c, q, z, r, s))
  {
    hide Mul, IsGroup;
    var g, w := c.group, c.invert(s);
    InvertNegation(c, s);
    NegatedMultiple(c, z, w, c.generator);
    NegatedMultiple(c, r, w, q);
    NegOfSum(g, Mul(g, (z * w) % c.order, c.generator), Mul(g, (r * w) % c.order, q));
  }

  /** Plain ECDSA verification cannot tell s from n - s: the point is negated, its x is not. */
  lemma NegationInvariant<P(!new)>(c: Curve<P>, q: P, z: nat, r: nat, s: nat)
    requires Lawful(c) && Scalar(c, s)
    ensures EcdsaValid(c, q, z, r, c.order - s) <==> EcdsaValid(c, q, z, r, s)
  {
    hide Mul, IsGroup, EcdsaPoint;
    var g, point := c.group, EcdsaPoint(c, q, z, r, s);
    NegatedPoint(c, q, z, r, s);
    assert PointAt(c, point);
    NegOfNeg(g, point);
    Inverse(g, g.zero);
    Unit(g, g.neg(g.zero));
  }

  /** n being odd, what `normalize_s` leaves alone is what lies below n / 2. */
  lemma LowExactly<P(!new)>(c: Curve<P>, s: nat)
    requires OrderLaws(c.order)
    ensures IsHigh(c, s) <==> 2 * s > c.order
    ensures 2 * s != c.order
  {
  }

  /** What `verify_sig` accepts: the fixed-width form of a valid pair with s in the lower half. */
  lemma AcceptedExactly<P(!new)>(c: Curve<P>, q: P, msg: seq<byte>, r: nat, s: nat)
    requires Lawful(c) && Scalar(c, r) && Scalar(c, s)
    ensures VerifySig(c, q, msg, SignatureBytes(r, s)).Ok?
       <==> 2 * s < c.order && EcdsaValid(c, q, c.messageScalar(msg), r, s)
  {
    hide ParseSignature, SignatureBytes, EcdsaValid;
    LowExactly(c, s);
    ParsesExactly(c, SignatureBytes(r, s), r, s);
  }

  /** Every accepted signature: 132 bytes, two scalars in [1, n-1], the second below n / 2. */
  lemma AcceptedBytes<P(!new)>(c: Curve<P>, q: P, msg: seq<byte>, signature: seq<byte>)
    requires Lawful(c) && VerifySig(c, q, msg, signature).Ok?
    ensures |signature| == 132
    ensures var r, s := FromBE(signature[..66]), FromBE(signature[66..]);
            0 < r < c.order && 0 < s && 2 * s < c.order
  {
    hide FromBE, EcdsaValid;
    LowExactly(c, FromBE(signature[66..]));
  }

  /** Whatever is wrong with a signature, it is a signature error. */
  lemma OnlySignatureErrors<P(!new)>(c: Curve<P>, q: P, msg: seq<byte>, signature: seq<byte>)
    ensures VerifySig(c, q, msg, signature) in [Ok(()), Err(SignatureError)]
  {
    hide ParseSignature, EcdsaValid;
  }

  /**
   Verification as section 4.1.4 of SEC 1 writes it, with the low half added: for any inverse
   w of s, the x-coordinate of [z w]G + [r w]Q is r modulo n, and the point is not O.
   */
  lemma AcceptedAsInSec1<P(!new)>(c: Curve<P>, q: P, msg: seq<byte>, r: nat, s: nat, w: nat)
    requires Lawful(c) && 0 < r < c.order && 0 < s < c.order && w < c.order && (s * w) % c.order == 1
    ensures var z := c.messageScalar(msg);
            var point := c.group.add(Mul(c.group, z * w, c.generator), Mul(c.group, r * w, q));
            VerifySig(c, q, msg, ToFixedBE(r, 66) + ToFixedBE(s, 66)).Ok? <==>
              2 * s < c.order && point != c.group.zero && c.x(point) % c.order == r
  {
    hide Mul, IsGroup, ToFixedBE, VerifySig;
    var z := c.messageScalar(msg);
    assert InvertAt(c, s) && PointAt(c, c.generator) && PointAt(c, q);
    TwoInverses(c.order, s, w, c.invert(s));
    MulMod(c.group, z * w, c.order, c.generator);
    MulMod(c.group, r * w, c.order, q);
    AcceptedExactly(c, q, msg, r, s);
  }

  /** Of the two forms (r, s) and (r, n - s) of a valid signature exactly one is accepted. */
  lemma ExactlyOneTwin<P(!new)>(c: Curve<P>, q: P, msg: seq<byte>, r: nat, s: nat)
    requires Lawful(c) && Scalar(c, r) && Scalar(c, s)
    requires EcdsaValid(c, q, c.messageScalar(msg), r, s)
    ensures VerifySig(c, q, msg, SignatureBytes(r, s)).Ok?
       <==> VerifySig(c, q, msg, SignatureBytes(r, c.order - s)).Err?
  {
    hide VerifySig, SignatureBytes, EcdsaValid;
    AcceptedExactly(c, q, msg, r, s);
    AcceptedExactly(c, q, msg, r, c.order - s);
    NegationInvariant(c, q, c.messageScalar(msg), r, s);
  }

  /** The bytes with s replaced by n - s, for a signature that parses. */
  function Twin<P>(c: Curve<P>, signature: seq<byte>): (twin: seq<byte>)
    requires ParseSignature(c, signature).Some?
    ensures |twin| == SIGNATURE_SIZE
  {
    var (r, s) := ParseSignature(c, signature).value;
    SignatureBytes(r, c.order - s)
  }

  /** The twin of an accepted signature is a different string and is rejected. */
  lemma TwinRejected<P(!new)>(c: Curve<P>, q: P, msg: seq<byte>, signature: seq<byte>)
    requires Lawful(c) && VerifySig(c, q, msg, signature).Ok?
    ensures ParseSignature(c, signature).Some?
    ensures Twin(c, signature) != signature && VerifySig(c, q, msg, Twin(c, signature)).Err?
  {
    hide ParseSignature, SignatureBytes, EcdsaValid;
    var (r, s) := ParseSignature(c, signature).value;
    ParsesExactly(c, signature, r, s);
    ExactlyOneTwin(c, q, msg, r, s);
    ParsesExactly(c, Twin(c, signature), r, c.order - s);
  }

  // ---- at most one s ------------------------------------------------------------------

  /** The verifier's point is [1/s]T, for a point T that does not depend on s. */
  lemma ScaledPoint<P(!new)>(c: Curve<P>, q: P, z: nat, r: nat, s: nat)
    requires Lawful(c)
    ensures var t := c.group.add(Mul(c.group, z, c.generator), Mul(c.group, r, q));
            EcdsaPoint(c, q, z, r, s) == Mul(c.group, c.invert(s), t)
  {
    hide Mul, IsGroup;
    var g, w := c.group, c.invert(s);
    assert PointAt(c, c.generator) && PointAt(c, q);
    MulMod(g, z * w, c.order, c.generator);
    MulMod(g, r * w, c.order, q);
    MulMul(g, w, z, c.generator);
    MulMul(g, w, r, q);
    MulOfSum(g, w, Mul(g, z, c.generator), Mul(g, r, q));
    assert z * w == w * z && r * w == w * r;
  }

  /** For fixed key, message and r the point determines s, unless it is the identity. */
  lemma PointDeterminesS<P(!new)>(c: Curve<P>, q: P, z: nat, r: nat, s1: nat, s2: nat)
    requires Lawful(c) && Scalar(c, s1) && Scalar(c, s2)
    requires EcdsaPoint(c, q, z, r, s1) == EcdsaPoint(c, q, z, r, s2)
    requires EcdsaPoint(c, q, z, r, s1) != c.group.zero
    ensures s1 == s2
  {
    hide Mul, IsGroup, EcdsaPoint;
    var g, n := c.group, c.order;
    var t := g.add(Mul(g, z, c.generator), Mul(g, r, q));
    var w1, w2 := c.invert(s1), c.invert(s2);
    ScaledPoint(c, q, z, r, s1);
    ScaledPoint(c, q, z, r, s2);
    MulOfZero(g, w1);
    assert PointAt(c, t) && InvertAt(c, s1) && InvertAt(c, s2);
    EqualMultiples(g, n, w1, w2, t);
    ModSmall(w1, n);
    ModSmall(w2, n);
    assert s1 * w1 == w1 * s1 && s2 * w1 == w1 * s2;
    TwoInverses(n, w1, s1, s2);
  }

  /**
   For fixed key, message and r, two valid low s are equal unless the two points differ in x.
   */
  lemma LowSUnique<P(!new)>(c: Curve<P>, q: P, z: nat, r: nat, s1: nat, s2: nat)
    requires Lawful(c) && Scalar(c, s1) && Scalar(c, s2) && 2 * s1 < c.order && 2 * s2 < c.order
    requires EcdsaValid(c, q, z, r, s1) && EcdsaValid(c, q, z, r, s2)
    ensures c.x(EcdsaPoint(c, q, z, r, s1)) == c.x(EcdsaPoint(c, q, z, r, s2)) <==> s1 == s2
  {
    hide Mul, IsGroup, EcdsaPoint;
    var p1, p2 := EcdsaPoint(c, q, z, r, s1), EcdsaPoint(c, q, z, r, s2);
    if c.x(p1) == c.x(p2) {
      assert PairAt(c, p1, p2);
      if p1 == p2 {
        PointDeterminesS(c, q, z, r, s1, s2);
      } else {
        NegatedPoint(c, q, z, r, s2);
        PointDeterminesS(c, q, z, r, s1, c.order - s2);
      }
    }
  }

  /** A field element with residue r modulo n is r or r + n, and r only when r + n is none. */
  lemma FieldResidue(x: nat, r: nat, n: pos, field: pos)
    requires x < field < 2 * n && x % n == r
    ensures x == r || (x == r + n && r + n < field)
  {
    var k := x / n;
    assert x == n * k + r;
    assert k * n == (k - 1) * n + n;
    MultipleOutside(k - 1, n);
    MultipleOutside(k, n);
  }

  /** The x-coordinate of a valid signature is r, or r + n where that is a field element. */
  lemma ValidX<P(!new)>(c: Curve<P>, q: P, z: nat, r: nat, s: nat)
    requires Lawful(c) && EcdsaValid(c, q, z, r, s)
    ensures var x := c.x(EcdsaPoint(c, q, z, r, s));
            x == r || (x == r + c.order && r + c.order < c.field)
  {
    hide Mul, IsGroup, EcdsaPoint;
    assert PointAt(c, EcdsaPoint(c, q, z, r, s));
    FieldResidue(c.x(EcdsaPoint(c, q, z, r, s)), r, c.order, c.field);
  }

  /** For every r but those below p - n there is at most one valid low s. */
  lemma OnlyLowS<P(!new)>(c: Curve<P>, q: P, z: nat, r: nat, s1: nat, s2: nat)
    requires Lawful(c) && Scalar(c, s1) && Scalar(c, s2) && 2 * s1 < c.order && 2 * s2 < c.order
    requires EcdsaValid(c, q, z, r, s1) && EcdsaValid(c, q, z, r, s2)
    requires r + c.order >= c.field
    ensures s1 == s2
  {
    hide EcdsaValid, EcdsaPoint, Lawful;
    ValidX(c, q, z, r, s1);
    ValidX(c, q, z, r, s2);
    LowSUnique(c, q, z, r, s1, s2);
  }

  /** For every r there are at most two. */
  lemma AtMostTwoLowS<P(!new)>(c: Curve<P>, q: P, z: nat, r: nat, s1: nat, s2: nat, s3: nat)
    requires Lawful(c) && Scalar(c, s1) && Scalar(c, s2) && Scalar(c, s3)
    requires 2 * s1 < c.order && 2 * s2 < c.order && 2 * s3 < c.order
    requires EcdsaValid(c, q, z, r, s1) && EcdsaValid(c, q, z, r, s2) && EcdsaValid(c, q, z, r, s3)
    ensures s1 == s2 || s1 == s3 || s2 == s3
  {
    hide EcdsaValid, EcdsaPoint, Lawful;
    ValidX(c, q, z, r, s1);
    ValidX(c, q, z, r, s2);
    ValidX(c, q, z, r, s3);
    LowSUnique(c, q, z, r, s1, s2);
    LowSUnique(c, q, z, r, s1, s3);
    LowSUnique(c, q, z, r, s2, s3);
  }

  /** The x-coordinate the verifier computes for a signature that parses. */
  function SignatureX<P>(c: Curve<P>, q: P, msg: seq<byte>, signature: seq<byte>): nat
    requires ParseSignature(c, signature).Some?
  {
    var (r, s) := ParseSignature(c, signature).value;
    c.x(EcdsaPoint(c, q, c.messageScalar(msg), r, s))
  }

  lemma SameHalf<P(!new)>(c: Curve<P>, signature: seq<byte>, signature': seq<byte>)
    requires |signature| == |signature'| == SIGNATURE_SIZE && signature[..66] == signature'[..66]
    requires ParseSignature(c, signature).Some? && ParseSignature(c, signature').Some?
    ensures ParseSignature(c, signature).value.0 == ParseSignature(c, signature').value.0
  {
  }

  /** Two accepted signatures with one r are the same bytes exactly when they give one x-coordinate. */
  lemma AtMostOneS<P(!new)>(c: Curve<P>, q: P, msg: seq<byte>, signature: seq<byte>, signature': seq<byte>)
    requires Lawful(c) && VerifySig(c, q, msg, signature).Ok? && VerifySig(c, q, msg, signature').Ok?
    requires signature[..66] == signature'[..66]
    ensures ParseSignature(c, signature).Some? && ParseSignature(c, signature').Some?
    ensures SignatureX(c, q, msg, signature) == SignatureX(c, q, msg, signature') <==> signature == signature'
    ensures signature != signature' ==> ParseSignature(c, signature).value.0 + c.order < c.field
  {
    hide ParseSignature, SignatureBytes, EcdsaPoint, EcdsaValid, FromBE, Lawful;
    var (r, s) := ParseSignature(c, signature).value;
    var (r', s') := ParseSignature(c, signature').value;
    OrderFacts(c);
    ParsesExactly(c, signature, r, s);
    ParsesExactly(c, signature', r', s');
    SameHalf(c, signature, signature');
    LowExactly(c, s);
    LowExactly(c, s');
    LowSUnique(c, q, c.messageScalar(msg), r, s, s');
    if r + c.order >= c.field {
      OnlyLowS(c, q, c.messageScalar(msg), r, s, s');
    }
  }

  // ---- one signature, two messages ----------------------------------------------------

  /** [z]G + [r]Q: s times the verifier's point. */
  function Commitment<P>(c: Curve<P>, q: P, z: nat, r: nat): P {
    c.group.add(Mul(c.group, z, c.generator), Mul(c.group, r, q))
  }

  lemma Unscaled<P(!new)>(c: Curve<P>, q: P, z: nat, r: nat, s: nat)
    requires Lawful(c) && Scalar(c, s)
    ensures EcdsaPoint(c, q, z, r, s) == Mul(c.group, c.invert(s), Commitment(c, q, z, r))
    ensures Mul(c.group, s, EcdsaPoint(c, q, z, r, s)) == Commitment(c, q, z, r)
  {
    hide Mul, IsGroup, EcdsaPoint;
    var t := Commitment(c, q, z, r);
    ScaledPoint(c, q, z, r, s);
    assert PointAt(c, t) && InvertAt(c, s);
    MulMul(c.group, s, c.invert(s), t);
    MulMod(c.group, s * c.invert(s), c.order, t);
    MulOne(c.group, t);
  }

  lemma EqualCommitments<P(!new)>(c: Curve<P>, q: P, z1: nat, z2: nat, r: nat)
    requires Lawful(c)
    ensures Commitment(c, q, z1, r) == Commitment(c, q, z2, r) <==> z1 % c.order == z2 % c.order
  {
    hide Mul, IsGroup;
    var g, b := c.group, Mul(c.group, r, q);
    assert PointAt(c, c.generator);
    EqualMultiples(g, c.order, z1, z2, c.generator);
    Comm(g, Mul(g, z1, c.generator), b);
    Comm(g, Mul(g, z2, c.generator), b);
    if Commitment(c, q, z1, r) == Commitment(c, q, z2, r) {
      CancelLeft(g, b, Mul(g, z1, c.generator), Mul(g, z2, c.generator));
    }
  }

  lemma OppositeCommitments<P(!new)>(c: Curve<P>, q: P, z1: nat, z2: nat, r: nat)
    requires Lawful(c)
    ensures Commitment(c, q, z1, r) == c.group.neg(Commitment(c, q, z2, r))
       <==> Commitment(c, q, z1 + z2, 2 * r) == c.group.zero
  {
    hide Mul, IsGroup;
    var g, t1, t2 := c.group, Commitment(c, q, z1, r), Commitment(c, q, z2, r);
    Exchange(g, Mul(g, z1, c.generator), Mul(g, r, q), Mul(g, z2, c.generator), Mul(g, r, q));
    MulAdd(g, z1, z2, c.generator);
    MulAdd(g, r, r, q);
    NegOfNeg(g, t2);
    DifferenceZero(g, t1, g.neg(t2));
  }

  /**
   One (r, s) valid for two messages: the verifier meets one x-coordinate exactly when the
   message scalars agree modulo n or [z1 + z2]G + [2r]Q = O.
   */
  lemma TwoMessagesOneX<P(!new)>(c: Curve<P>, q: P, z1: nat, z2: nat, r: nat, s: nat)
    requires Lawful(c) && Scalar(c, s)
    requires EcdsaValid(c, q, z1, r, s) && EcdsaValid(c, q, z2, r, s)
    ensures c.x(EcdsaPoint(c, q, z1, r, s)) == c.x(EcdsaPoint(c, q, z2, r, s)) <==>
              z1 % c.order == z2 % c.order || Commitment(c, q, z1 + z2, 2 * r) == c.group.zero
  {
    hide Mul, IsGroup, EcdsaPoint, Commitment;
    var g, p1, p2 := c.group, EcdsaPoint(c, q, z1, r, s), EcdsaPoint(c, q, z2, r, s);
    Unscaled(c, q, z1, r, s);
    Unscaled(c, q, z2, r, s);
    EqualCommitments(c, q, z1, z2, r);
    OppositeCommitments(c, q, z1, z2, r);
    MulOfNeg(g, s, p2);
    MulOfNeg(g, c.invert(s), Commitment(c, q, z2, r));
    assert PairAt(c, p1, p2) && PointAt(c, p2);
  }

  /**
   So one (r, s) with r not below p - n binds its message up to these two cases; the second
   is one linear condition on the secret key.
   */
  lemma SignatureBindsMessage<P(!new)>(c: Curve<P>, q: P, z1: nat, z2: nat, r: nat, s: nat)
    requires Lawful(c) && Scalar(c, s) && r + c.order >= c.field
    requires EcdsaValid(c, q, z1, r, s) && EcdsaValid(c, q, z2, r, s)
    ensures z1 % c.order == z2 % c.order || Commitment(c, q, z1 + z2, 2 * r) == c.group.zero
  {
    hide EcdsaValid, EcdsaPoint, Commitment, Lawful;
    ValidX(c, q, z1, r, s);
    ValidX(c, q, z2, r, s);
    TwoMessagesOneX(c, q, z1, z2, r, s);
  }

  /** An accepted string is a valid pair. */
  lemma AcceptedIsValid<P(!new)>(c: Curve<P>, q: P, msg: seq<byte>, signature: seq<byte>)
    requires VerifySig(c, q, msg, signature).Ok?
    ensures ParseSignature(c, signature).Some?
    ensures var (r, s) := ParseSignature(c, signature).value;
            Scalar(c, r) && Scalar(c, s) && EcdsaValid(c, q, c.messageScalar(msg), r, s)
  {
    hide EcdsaValid, FromBE;
  }

  lemma StringBindsMessage<P(!new)>(c: Curve<P>, q: P, msg1: seq<byte>, msg2: seq<byte>, signature: seq<byte>)
    requires Lawful(c) && VerifySig(c, q, msg1, signature).Ok? && VerifySig(c, q, msg2, signature).Ok?
    ensures ParseSignature(c, signature).Some?
    ensures var (r, _) := ParseSignature(c, signature).value;
            var z1, z2 := c.messageScalar(msg1), c.messageScalar(msg2);
            || z1 % c.order == z2 % c.order
            || Commitment(c, q, z1 + z2, 2 * r) == c.group.zero
            || r + c.order < c.field
  {
    hide VerifySig, ParseSignature, EcdsaValid, Commitment, Lawful;
    AcceptedIsValid(c, q, msg1, signature);
    AcceptedIsValid(c, q, msg2, signature);
    var (r, s) := ParseSignature(c, signature).value;
    if r + c.order >= c.field {
      SignatureBindsMessage(c, q, c.messageScalar(msg1), c.messageScalar(msg2), r, s);
    }
  }

  // ---- completeness -------------------------------------------------------------------

  /** z/s + (r/s) d = k modulo n when s = (z + r d)/k. */
  lemma NonceRecovered(k: nat, i: nat, m: nat, s: nat, w: nat, n: pos)
    requires 0 < k < n && (k * i) % n == 1
    requires s == (i * m) % n && (s * w) % n == 1
    ensures (m * w) % n == k
  {
    calc {
      k;
      { TimesOne(s * w, k, n); }
      ((s * w) * k) % n;
      { assert (s * w) * k == s * (w * k); }
      (s * (w * k)) % n;
      { ModMul(i * m, w * k, n); }
      ((i * m) * (w * k)) % n;
      { assert (i * m) * (w * k) == (k * i) * (m * w); }
      ((k * i) * (m * w)) % n;
      { ModMul(k * i, m * w, n); }
      (1 * (m * w)) % n;
    }
  }

  /** [u]G + [v]([d]G) = [u + v d]G, with u and v taken modulo n. */
  lemma LinearCombination<P(!new)>(c: Curve<P>, u: nat, v: nat, d: nat)
    requires Lawful(c)
    ensures c.group.add(Mul(c.group, u % c.order, c.generator),
                        Mul(c.group, v % c.order, PublicPoint(c, d)))
         == Mul(c.group, u + v * d, c.generator)
  {
    hide Mul, IsGroup;
    assert PointAt(c, c.generator) && PointAt(c, PublicPoint(c, d));
    MulMod(c.group, u, c.order, c.generator);
    MulMod(c.group, v, c.order, PublicPoint(c, d));
    MulMul(c.group, v, d, c.generator);
    MulAdd(c.group, u, v * d, c.generator);
  }

  lemma CombinedMultiplier(z: nat, r: nat, d: nat, w: nat)
    ensures z * w + (r * w) * d == (z + r * d) * w
  {
  }

  /** The verifier's point is [k]G for the signature made with nonce k. */
  lemma SignaturePoint<P(!new)>(c: Curve<P>, d: nat, k: nat, z: nat)
    requires Lawful(c) && Scalar(c, k)
    requires RawSignature(c, d, k, z).1 != 0
    ensures var (r, s) := RawSignature(c, d, k, z);
            EcdsaPoint(c, PublicPoint(c, d), z, r, s) == Mul(c.group, k, c.generator)
  {
    hide Mul, IsGroup, PublicPoint, OrderLaws;
    var (r, s) := RawSignature(c, d, k, z);
    assert InvertAt(c, k) && InvertAt(c, s) && PointAt(c, c.generator);
    var w, m := c.invert(s), z + r * d;
    NonceRecovered(k, c.invert(k), m, s, w, c.order);
    LinearCombination(c, z * w, r * w, d);
    CombinedMultiplier(z, r, d, w);
    MulMod(c.group, m * w, c.order, c.generator);
  }

  /** The pair the library computes passes plain ECDSA verification. */
  lemma RawSignatureValid<P(!new)>(c: Curve<P>, d: nat, k: nat, z: nat)
    requires Lawful(c) && Scalar(c, k)
    requires RawSignature(c, d, k, z).1 != 0
    ensures var (r, s) := RawSignature(c, d, k, z);
            r < c.order && s < c.order && EcdsaValid(c, PublicPoint(c, d), z, r, s)
  {
    hide Mul, IsGroup, EcdsaPoint, PublicPoint;
    SignaturePoint(c, d, k, z);
    assert PointAt(c, c.generator);
    PrimeOrder(c.group, c.order, k, c.generator);
    ModSmall(k, c.order);
  }

  /** Everything `sign_msg` emits is accepted by `verify_sig` under the matching public key. */
  lemma SignMsgAccepted<P(!new)>(c: Curve<P>, d: nat, k: nat, msg: seq<byte>)
    requires Lawful(c) && GoodNonce(c, d, k, msg)
    ensures VerifySig(c, PublicPoint(c, d), msg, SignMsg(c, d, k, msg)).Ok?
  {
    hide Mul, IsGroup, VerifySig, SignatureBytes, EcdsaPoint, PublicPoint, RawSignature;
    var z := c.messageScalar(msg);
    var q := PublicPoint(c, d);
    var (r, s) := RawSignature(c, d, k, z);
    RawSignatureValid(c, d, k, z);
    NegationInvariant(c, q, z, r, s);
    AcceptedExactly(c, q, msg, r, NormalizeS(c, s).UnwrapOr(s));
  }

  /** Of k * i = 1 and s = i * m modulo n: k * s = m modulo n. */
  lemma NonceTimesS(k: nat, i: nat, m: nat, n: pos)
    requires (k * i) % n == 1
    ensures (k * ((i * m) % n)) % n == m % n
  {
    ModMul(i * m, k, n);
    assert (i * m) * k == (k * i) * m && ((i * m) % n) * k == k * ((i * m) % n);
    ModMul(k * i, m, n);
  }

  /**
   What signing emits, on the bytes: r is the x-coordinate of [k]G modulo n, s lies below n / 2,
   and s or n - s is the solution of k s = z + r d modulo n.
   */
  lemma SignedBytes<P(!new)>(c: Curve<P>, d: nat, k: nat, msg: seq<byte>)
    requires Lawful(c) && GoodNonce(c, d, k, msg)
    ensures var signature, z := SignMsg(c, d, k, msg), c.messageScalar(msg);
            var r, s := FromBE(signature[..66]), FromBE(signature[66..]);
            && r == c.x(Mul(c.group, k, c.generator)) % c.order
            && 0 < s && 2 * s < c.order
            && ((k * s) % c.order == (z + r * d) % c.order || (k * (c.order - s)) % c.order == (z + r * d) % c.order)
  {
    hide Mul, IsGroup, FromBE, ToFixedBE, Pow256;
    var z := c.messageScalar(msg);
    var (r, s) := RawSignature(c, d, k, z);
    assert InvertAt(c, k) && WidthAt(c.order, 66);
    NonceTimesS(k, c.invert(k), z + r * d, c.order);
    LowExactly(c, s);
    var emitted := NormalizeS(c, s).UnwrapOr(s);
    FromToFixedBE(r, 66);
    FromToFixedBE(emitted, 66);
    var signature := SignMsg(c, d, k, msg);
    assert signature[..66] == ToFixedBE(r, 66) && signature[66..] == ToFixedBE(emitted, 66);
  }
}
