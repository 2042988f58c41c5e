/**
 The laws assumed of the libraries can be met: residues under addition, with coordinates and
 encodings of the right shape, are a model of the curve laws whenever the two order constants
 are prime, and with constant hashes of all laws together. So the theorems that require `Lawful`
 or `LawfulSuite` are not about an empty class; one model has a key that signs in vain.
 */
module Consistency {
  import opened Outcomes
  import opened Bytes
  import opened Modular
  import opened Groups
  import opened Transaction
  import opened CompositeKey
  import opened KeyGeneration
  import opened Signing
  import Ed448
  import P521
  import P521Derivation

  // ---- residues ---------------------------------------------------------------

  function AddResidues(n: pos, a: nat, b: nat): (c: nat)
    requires a < n && b < n
    ensures c < n
  {
    if a + b < n then a + b else a + b - n
  }

  /** A multiple of a residue is the product, reduced. */
  lemma {:induction false} MulIsProduct<P(!new)>(g: Group<P>, n: pos, value: P -> nat, k: nat, p: P)
    returns (q: nat)
    requires value(g.zero) == 0 && forall x :: value(x) < n
    requires forall x, y :: value(g.add(x, y)) == AddResidues(n, value(x), value(y))
    ensures k * value(p) == q * n + value(Mul(g, k, p))
  {
    if k == 0 {
      q := 0;
    } else {
      q := MulIsProduct(g, n, value, k - 1, p);
      assert k * value(p) == (k - 1) * value(p) + value(p);
      if value(p) + value(Mul(g, k - 1, p)) >= n {
        assert (q + 1) * n == q * n + n;
        q := q + 1;
      }
    }
  }

  /** A multiple whose product is a multiple of n is the zero residue. */
  lemma MulVanishes<P(!new)>(g: Group<P>, n: pos, value: P -> nat, k: nat, p: P, m: nat)
    requires value(g.zero) == 0 && forall x :: value(x) < n
    requires forall x, y :: value(g.add(x, y)) == AddResidues(n, value(x), value(y))
    requires k * value(p) == m * n
    ensures value(Mul(g, k, p)) == 0
  {
    var q := MulIsProduct(g, n, value, k, p);
    ModIs(k * value(p), q, value(Mul(g, k, p)), n);
    ModIs(k * value(p), m, 0, n);
  }

  // ---- a model of the Ed448 laws -----------------------------------------------

  /** The cofactor times L. */
  function EdSize(): pos {
    4 * Ed448.ORDER
  }

  type EdPoint = n: nat | n < EdSize()

  function EdAdd(a: EdPoint, b: EdPoint): EdPoint {
    AddResidues(EdSize(), a, b)
  }

  function EdNeg(a: EdPoint): EdPoint {
    if a == 0 then 0 else EdSize() - a
  }

  const ED_GROUP: Group<EdPoint> := Group<EdPoint>.Group(0, EdAdd, EdNeg)

  function EdX(p: EdPoint): nat {
    if p == 0 || 2 * p == EdSize() then 0 else if 2 * p < EdSize() then 2 else Ed448.FIELD_PRIME - 2
  }

  function EdY(p: EdPoint): nat {
    if 2 * p <= EdSize() then p else EdSize() - p
  }

  function EdDecompress(raw: seq<byte>): Option<EdPoint> {
    if |raw| != Ed448.PUBLIC_KEY_SIZE then None
    else
      var y := Ed448.EncodedY(raw) % Ed448.FIELD_PRIME;
      if 2 * y > EdSize() then None
      else if raw[56] / 128 == 0 || y == 0 || 2 * y == EdSize() then Some(y)
      else Some(EdSize() - y)
  }

  const ED_CURVE: Ed448.Curve<EdPoint> :=
    Ed448.Curve<EdPoint>.Curve(ED_GROUP, Ed448.ORDER, 4, EdX, EdY, EdDecompress)

  lemma EdGroupLaws()
    ensures IsGroup(ED_GROUP)
  {
    hide EdSize;
    forall a, b, c
      ensures AssocAt(ED_GROUP, a, b, c)
    {
    }
  }

  lemma EdMultiples(p: EdPoint)
    ensures Mul(ED_GROUP, 4 * Ed448.ORDER, p) == 0
  {
    MulVanishes(ED_GROUP, EdSize(), (x: EdPoint) => x, 4 * Ed448.ORDER, p, p);
  }

  lemma EdBase()
    ensures Mul(ED_GROUP, Ed448.ORDER, 4) == 0
  {
    MulVanishes(ED_GROUP, EdSize(), (x: EdPoint) => x, Ed448.ORDER, 4, 1);
  }

  /** What L kills is a multiple of four, and so of the base point 4. */
  lemma EdCyclic(p: EdPoint)
    ensures Ed448.CyclicAt(ED_CURVE, p)
  {
    hide Mul;
    if Mul(ED_GROUP, Ed448.ORDER, p) == 0 {
      var q := MulIsProduct(ED_GROUP, EdSize(), (x: EdPoint) => x, Ed448.ORDER, p);
      assert p == 4 * q;
      var lap := MulIsProduct(ED_GROUP, EdSize(), (x: EdPoint) => x, q, 4);
      assert lap == 0;
      assert Mul(ED_GROUP, q, 4) == p;
    }
  }

  lemma EdDecompressLaw(raw: seq<byte>, p: EdPoint)
    requires |raw| == Ed448.PUBLIC_KEY_SIZE
    ensures Ed448.DecompressAt(ED_CURVE, raw, p)
  {
    hide FromLE;
  }

  /** The Ed448 laws hold of a concrete model. */
  lemma Ed448LawsConsistent()
    requires Prime(Ed448.ORDER)
    ensures Ed448.Lawful(ED_CURVE)
  {
    hide Mul, FromLE;
    Ed448.OrderConstant();
    EdGroupLaws();
    EdBase();
    forall p: EdPoint
      ensures Ed448.CofactorAt(ED_CURVE, p) && Ed448.CyclicAt(ED_CURVE, p)
    {
      EdMultiples(p);
      EdCyclic(p);
    }
    forall raw: seq<byte>, p: EdPoint | |raw| == Ed448.PUBLIC_KEY_SIZE
      ensures Ed448.DecompressAt(ED_CURVE, raw, p)
    {
      EdDecompressLaw(raw, p);
    }
  }

  // ---- a model of the P-521 laws --------------------------------------------------

  function EcSize(): pos {
    P521.ORDER
  }

  type EcPoint = n: nat | n < EcSize()

  function EcAdd(a: EcPoint, b: EcPoint): EcPoint {
    AddResidues(EcSize(), a, b)
  }

  function EcNeg(a: EcPoint): EcPoint {
    if a == 0 then 0 else EcSize() - a
  }

  const EC_GROUP: Group<EcPoint> := Group<EcPoint>.Group(0, EcAdd, EcNeg)

  ghost const EC_INVERT: nat -> nat :=
    s => if Prime(P521.ORDER) && 0 < s < P521.ORDER then InvMod(P521.ORDER, s) else 0

  function EcX(p: EcPoint): nat {
    if 2 * p <= EcSize() then p else EcSize() - p
  }

  function EcFromSec1(raw: seq<byte>): Option<EcPoint> {
    if FromBE(raw) < EcSize() then Some(FromBE(raw)) else None
  }

  function EcToSec1(p: EcPoint): seq<byte> {
    ToFixedBE(p, P521.PUBLIC_KEY_SIZE)
  }

  function EcMessage(msg: seq<byte>): nat {
    0
  }

  /** x = min(k, n - k); a point is encoded as its residue in 133 bytes. */
  ghost const EC_CURVE: P521.Curve<EcPoint> :=
    P521.Curve<EcPoint>.Curve(EC_GROUP, P521.ORDER, P521.FIELD_PRIME, 1, EcX, EC_INVERT, EcMessage,
                              EcFromSec1, EcToSec1)

  lemma EcGroupLaws()
    ensures IsGroup(EC_GROUP)
  {
    hide EcSize;
    forall a, b, c
      ensures AssocAt(EC_GROUP, a, b, c)
    {
    }
  }

  lemma EcMultiples(p: EcPoint)
    ensures Mul(EC_GROUP, P521.ORDER, p) == 0
  {
    MulVanishes(EC_GROUP, EcSize(), (x: EcPoint) => x, P521.ORDER, p, p);
  }

  /** The P-521 laws hold of a concrete model. */
  lemma P521LawsConsistent()
    requires Prime(P521.ORDER)
    ensures P521.Lawful(EC_CURVE)
  {
    hide Mul, FromBE, ToFixedBE, Pow256;
    P521.OrderConstant();
    EcGroupLaws();
    forall p: EcPoint
      ensures P521.PointAt(EC_CURVE, p)
    {
      EcMultiples(p);
      assert P521.WidthAt(P521.ORDER, P521.PUBLIC_KEY_SIZE);
      FromToFixedBE(p, P521.PUBLIC_KEY_SIZE);
    }
  }

  // ---- a model of all library laws, with a key that cannot sign ---------------------

  function Zeros(n: nat): (s: seq<byte>)
    ensures |s| == n
  {
    seq(n, i => 0)
  }

  function ZeroHash(input: seq<byte>): Hash32 {
    Zeros(32)
  }

  function ZeroXof(input: seq<byte>, n: nat): seq<byte> {
    Zeros(n)
  }

  function OneDigest(input: seq<byte>): seq<byte> {
    Zeros(63) + [1]
  }

  function ZeroHkdf(ikm: seq<byte>, n: nat): Option<seq<byte>> {
    Some(Zeros(n))
  }

  const ML_DSA: MlDsa :=
    MlDsa(seed => Zeros(MLDSA_PK_SIZE), (seed, msg) => Zeros(MLDSA_SIG_SIZE), (key, msg, sig) => true)

  /** Every Ed448 seed expands to the clamped scalar 4L, and every nonce scalar is one. */
  ghost const SUITE: Suite<EdPoint, EcPoint> :=
    Suite<EdPoint, EcPoint>.Suite(ZeroHash, ZeroXof, OneDigest, ZeroHkdf, ML_DSA, EC_CURVE, ED_CURVE,
                                  seed => 4 * Ed448.ORDER, (seed, msg) => 1)

  /** All laws assumed of the libraries hold together of a concrete model. */
  lemma SuiteLawsConsistent()
    requires Prime(Ed448.ORDER) && Prime(P521.ORDER)
    ensures LawfulSuite(SUITE)
  {
    hide Ed448.Lawful, P521.Lawful;
    Ed448LawsConsistent();
    P521LawsConsistent();
    assert P521Derivation.LawfulSha512(SUITE.sha512);
  }

  lemma {:induction false} ValueOfZeros(n: nat)
    ensures FromBE(Zeros(n)) == 0
  {
    if n == 0 {
    } else {
      ValueOfZeros(n - 1);
      assert Zeros(n)[..n - 1] == Zeros(n - 1);
    }
  }

  lemma OneDigestIsOne(input: seq<byte>)
    ensures FromBE(OneDigest(input)) == 1
  {
    ValueOfZeros(63);
    assert OneDigest(input)[..63] == Zeros(63);
  }

  /** The nonce 1 is one the library keeps, for the secret 1 and every message. */
  lemma NonceOneIsGood(msg: seq<byte>)
    requires Prime(P521.ORDER)
    ensures P521.GoodNonce(EC_CURVE, 1, 1, msg)
  {
    P521LawsConsistent();
    MulOne(EC_GROUP, 1);
    var w := EC_INVERT(1);
    assert w * (0 + 1 * 1) == w;
  }

  /** The keys of every long enough seed, with the P-521 secret 1. */
  lemma KeysExist(seed: seq<byte>) returns (key: PrivateKey)
    requires Prime(Ed448.ORDER) && Prime(P521.ORDER) && |seed| >= 64
    ensures KeysOfSeed(SUITE, seed) == Returned(Ok(key)) && Matched(SUITE, key)
    ensures P521Secret(SUITE, key) == Some(1)
  {
    hide LawfulSuite, Matched, OneDigest, Mul, Ed448.EncodePoint, P521.PublicPoint, ToFixedBE, FromBE;
    SuiteLawsConsistent();
    OneDigestIsOne(P521Derivation.PREFIX + Zeros(P521.SEED_SIZE) + [0]);
    key := KeysOfSeed(SUITE, seed).result.value;
    GeneratedIsMatched(SUITE, seed);
    Widths();
    Pow256Monotonic(32, P521.PRIVATE_KEY_SIZE);
    FromToFixedBE(1, P521.PRIVATE_KEY_SIZE);
  }

  /**
   Signing and then recovering can fail: here a generated key with the clamped scalar 4L signs
   every transaction without an error, and no signature of its recovers.
   */
  lemma RecoveryCanFail(seed: seq<byte>, tx: Tx) returns (key: PrivateKey)
    requires Prime(Ed448.ORDER) && Prime(P521.ORDER) && |seed| >= 64 && Fits(tx.Unsigned())
    ensures LawfulSuite(SUITE) && SUITE.ed448.order == Ed448.ORDER
    ensures KeysOfSeed(SUITE, seed) == Returned(Ok(key)) && Ed448.Clamped(SUITE.ed448Secret(key.ed448))
    ensures GoodTxNonce(SUITE, tx, key, 1)
    ensures SignTx(SUITE, tx, key, 1).Ok? && Fits(SignTx(SUITE, tx, key, 1).value.Unsigned())
    ensures RecoverSender(SUITE, SignTx(SUITE, tx, key, 1).value).Err?
  {
    hide LawfulSuite, Matched, KeysOfSeed, SignTx, RecoverSender, Fits, Ed448.Clamped, P521.GoodNonce, P521Message,
         SignaturePreimage, ChainBinding;
    key := KeysExist(seed);
    SuiteLawsConsistent();
    NonceOneIsGood(P521Message(SignatureHash(SUITE, tx), ChainBinding(SUITE, tx.chainId, key.public)));
    Ed448.FourOrderIsClamped();
    ClampedSignerFails(SUITE, tx, key, 1);
  }
}
