/**
 The three-algorithm key and its signatures over general messages (src/crypto.rs). ML-DSA-87,
 the hashes, HKDF and the Ed448 signer are parameters; P-521 and Ed448 verification are the
 models of modules P521 and Ed448Signature.
 */
module CompositeKey {
  import opened Outcomes
  import opened Bytes
  import opened Modular
  import opened Groups
  import opened Hashing
  import opened Transaction
  import opened HdDerivation
  import opened Ed448Signature
  import Ed448
  import P521
  import P521Derivation

  const MLDSA_SEED_SIZE: nat := 32
  const MLDSA_PK_SIZE: nat := 2592
  const MLDSA_SIG_SIZE: nat := 4627
  const COMPOSITE_PK_SIZE: nat := MLDSA_PK_SIZE + P521.PUBLIC_KEY_SIZE + Ed448.PUBLIC_KEY_SIZE
  const COMPOSITE_SIG_SIZE: nat := MLDSA_SIG_SIZE + P521.SIGNATURE_SIZE + Ed448.SIGNATURE_SIZE

  type Hash32 = h: seq<byte> | |h| == 32
    witness [0, 0, 0, 0, 0, 0, 0, 0, 0, 0, 0, 0, 0, 0, 0, 0, 0, 0, 0, 0, 0, 0, 0, 0, 0, 0, 0, 0, 0, 0, 0, 0]

  // ---- what is assumed of the libraries --------------------------------------

  /** ML-DSA-87 with its keys given by their 32-byte seeds; signing is deterministic. */
  datatype MlDsa = MlDsa(
    publicKey: seq<byte> -> seq<byte>,
    sign: (seq<byte>, seq<byte>) -> seq<byte>,
    verify: (seq<byte>, seq<byte>, seq<byte>) -> bool)

  predicate MlDsaAt(m: MlDsa, seed: seq<byte>, msg: seq<byte>) {
    |seed| == MLDSA_SEED_SIZE ==>
      && |m.publicKey(seed)| == MLDSA_PK_SIZE
      && |m.sign(seed, msg)| == MLDSA_SIG_SIZE
      && m.verify(m.publicKey(seed), msg, m.sign(seed, msg))
  }

  /** Everything outside this repository that keys and signatures are built from. */
  datatype Suite<!E, !N> = Suite(
    keccak: seq<byte> -> Hash32,
    shake: Xof,
    sha512: P521Derivation.Sha512,
    hkdf: (seq<byte>, nat) -> Option<seq<byte>>,
    mlDsa: MlDsa,
    p521: P521.Curve<N>,
    ed448: Ed448.Curve<E>,
    ed448Secret: seq<byte> -> nat,               // the secret scalar a seed expands to
    ed448Nonce: (seq<byte>, seq<byte>) -> nat)   // the nonce scalar for a seed and a message

  predicate HkdfAt<E, N>(u: Suite<E, N>, ikm: seq<byte>, n: nat) {
    u.hkdf(ikm, n).Some? ==> |u.hkdf(ikm, n).value| == n
  }

  ghost predicate LawfulSuite<E(!new), N(!new)>(u: Suite<E, N>) {
    && (forall seed, msg :: MlDsaAt(u.mlDsa, seed, msg))
    && (forall ikm, n :: HkdfAt(u, ikm, n))
    && P521Derivation.LawfulSha512(u.sha512)
    && P521.Lawful(u.p521)
    && Ed448.Lawful(u.ed448)
  }

  // ---- the public key ------------------------------------------------------------

  datatype PublicKey = PublicKey(dilithium: seq<byte>, p521: seq<byte>, ed448: seq<byte>)

  function ToBytes(pk: PublicKey): seq<byte> {
    pk.dilithium + pk.p521 + pk.ed448
  }

  predicate Sized(pk: PublicKey) {
    && |pk.dilithium| == MLDSA_PK_SIZE
    && |pk.p521| == P521.PUBLIC_KEY_SIZE
    && |pk.ed448| == Ed448.PUBLIC_KEY_SIZE
  }

  function FromBytes<E(==), N>(u: Suite<E, N>, bytes: seq<byte>): Result<PublicKey, CryptoError> {
    if |bytes| != COMPOSITE_PK_SIZE then Err(InvalidKeySize(COMPOSITE_PK_SIZE, |bytes|))
    else
      var dil := bytes[..MLDSA_PK_SIZE];
      var p521 := bytes[MLDSA_PK_SIZE..MLDSA_PK_SIZE + P521.PUBLIC_KEY_SIZE];
      var ed448 := bytes[MLDSA_PK_SIZE + P521.PUBLIC_KEY_SIZE..];
      if u.p521.fromSec1(p521) == None then Err(CurveError)
      else
        var _ :- PublicKeyFromBytes(u.ed448, ed448);
        Ok(PublicKey(dil, p521, ed448))
  }

  /** A key whose parts the three libraries accept. */
  predicate ValidPublic<E(==), N>(u: Suite<E, N>, pk: PublicKey) {
    && Sized(pk)
    && u.p521.fromSec1(pk.p521) != None
    && Ed448.CanonicalPoint(u.ed448, pk.ed448).Ok?
  }

  lemma PartsOfBytes(pk: PublicKey, pk': PublicKey)
    requires Sized(pk) && Sized(pk') && ToBytes(pk) == ToBytes(pk')
    ensures pk == pk'
  {
    var b := ToBytes(pk);
    assert pk.dilithium == b[..MLDSA_PK_SIZE] == pk'.dilithium;
    assert pk.p521 == b[MLDSA_PK_SIZE..MLDSA_PK_SIZE + P521.PUBLIC_KEY_SIZE] == pk'.p521;
    assert pk.ed448 == b[MLDSA_PK_SIZE + P521.PUBLIC_KEY_SIZE..] == pk'.ed448;
  }

  /** Parsing accepts exactly the serialisations of valid keys: both round trips at once. */
  lemma FromBytesExact<E(!new), N(!new)>(u: Suite<E, N>, bytes: seq<byte>, pk: PublicKey)
    ensures FromBytes(u, bytes) == Ok(pk) <==> bytes == ToBytes(pk) && ValidPublic(u, pk)
  {
    hide Ed448.CanonicalPoint;
    if FromBytes(u, bytes).Ok? {
      var key := FromBytes(u, bytes).value;
      assert bytes == ToBytes(key);
      if bytes == ToBytes(pk) && Sized(pk) {
        PartsOfBytes(pk, key);
      }
    }
    if bytes == ToBytes(pk) && ValidPublic(u, pk) {
      assert pk.dilithium == bytes[..MLDSA_PK_SIZE];
      assert pk.p521 == bytes[MLDSA_PK_SIZE..MLDSA_PK_SIZE + P521.PUBLIC_KEY_SIZE];
      assert pk.ed448 == bytes[MLDSA_PK_SIZE + P521.PUBLIC_KEY_SIZE..];
    }
  }

  /** Which bytes are a key, at which offsets, and which error the others give. */
  lemma FromBytesAsWritten<E(!new), N(!new)>(u: Suite<E, N>, bytes: seq<byte>, pk: PublicKey)
    ensures FromBytes(u, bytes) == Ok(pk) <==>
              && |bytes| == 2782
              && pk == PublicKey(bytes[..2592], bytes[2592..2725], bytes[2725..])
              && u.p521.fromSec1(bytes[2592..2725]).Some? && Ed448.CanonicalPoint(u.ed448, bytes[2725..]).Ok?
    ensures |bytes| != 2782 ==> FromBytes(u, bytes) == Err(InvalidKeySize(2782, |bytes|))
    ensures |bytes| == 2782 && FromBytes(u, bytes).Err? ==> FromBytes(u, bytes) == Err(CurveError)
  {
    hide Ed448.CanonicalPoint;
  }

  /** The last 20 bytes of Keccak-256 over the three keys. */
  function DeriveAddress<E, N>(u: Suite<E, N>, pk: PublicKey): Address {
    u.keccak(ToBytes(pk))[12..32]
  }

  // ---- the composite signature -------------------------------------------------------

  /** SHAKE-256(dil_pk, p521_pk, ed448_pk, nonce), 32 bytes. */
  function HCombined<E, N>(u: Suite<E, N>, pk: PublicKey, nonce: seq<byte>): seq<byte> {
    u.shake(ToBytes(pk) + nonce, 32)
  }

  function P521Message(hash: Hash32, h: seq<byte>): seq<byte> {
    hash + h + [CURVE_ID_P521]
  }

  function Ed448Message(hash: Hash32, h: seq<byte>): seq<byte> {
    hash + h + [CURVE_ID_ED448]
  }

  datatype PrivateKey = PrivateKey(
    dilithium: seq<byte>, p521: seq<byte>, ed448: seq<byte>, seed: seq<byte>, public: PublicKey)

  /** The secret scalar of the P-521 part, if it is one. */
  function P521Secret<E, N>(u: Suite<E, N>, key: PrivateKey): Option<nat> {
    P521Derivation.SecretFromSlice(u.p521, key.p521)
  }

  /** The nonce `k` is one the P-521 library keeps for this message. */
  predicate GoodNonce<E, N>(u: Suite<E, N>, key: PrivateKey, hash: Hash32, h: seq<byte>, k: nat) {
    P521Secret(u, key).Some? ==>
      P521.GoodNonce(u.p521, P521Secret(u, key).value, k, P521Message(hash, h))
  }

  function Ed448Sign<E, N>(u: Suite<E, N>, seed: seq<byte>, msg: seq<byte>): (sig: seq<byte>)
    ensures |sig| == Ed448.SIGNATURE_SIZE
  {
    RfcSignature(u.ed448, u.shake, u.ed448Secret(seed), u.ed448Nonce(seed, msg), msg, None)
  }

  /** Signing a 32-byte hash under the binding hash h, with the random P-521 nonce k. */
  function CompositeSign<E, N>(u: Suite<E, N>, key: PrivateKey, hash: Hash32, h: seq<byte>, k: nat)
    : Result<seq<byte>, CryptoError>
    requires GoodNonce(u, key, hash, h, k)
  {
    if |key.dilithium| != MLDSA_SEED_SIZE then Err(SignatureError)
    else if P521Secret(u, key) == None then Err(CurveError)
    else if |key.ed448| != Ed448.PUBLIC_KEY_SIZE then Err(SignatureError)
    else
      Ok(u.mlDsa.sign(key.dilithium, hash)
         + P521.SignMsg(u.p521, P521Secret(u, key).value, k, P521Message(hash, h))
         + Ed448Sign(u, key.ed448, Ed448Message(hash, h)))
  }

  function MlDsaPart(sig: seq<byte>): seq<byte>
    requires |sig| == COMPOSITE_SIG_SIZE
  {
    sig[..MLDSA_SIG_SIZE]
  }

  function P521Part(sig: seq<byte>): seq<byte>
    requires |sig| == COMPOSITE_SIG_SIZE
  {
    sig[MLDSA_SIG_SIZE..MLDSA_SIG_SIZE + P521.SIGNATURE_SIZE]
  }

  function Ed448Part(sig: seq<byte>): seq<byte>
    requires |sig| == COMPOSITE_SIG_SIZE
  {
    sig[MLDSA_SIG_SIZE + P521.SIGNATURE_SIZE..]
  }

  /** Splitting at the fixed offsets, then all three verifications. */
  function CompositeVerify<E(==), N(==)>(u: Suite<E, N>, pk: PublicKey, hash: Hash32, h: seq<byte>, sig: seq<byte>)
    : Result<(), CryptoError>
    requires |pk.ed448| == Ed448.PUBLIC_KEY_SIZE
  {
    if |sig| != COMPOSITE_SIG_SIZE then Err(SignatureError)
    else if |pk.dilithium| != MLDSA_PK_SIZE then Err(SignatureError)
    else if !u.mlDsa.verify(pk.dilithium, hash, MlDsaPart(sig)) then Err(SignatureError)
    else
      match u.p521.fromSec1(pk.p521)
      case None => Err(SignatureError)
      case Some(q) =>
        if P521.VerifySig(u.p521, q, P521Message(hash, h), P521Part(sig)).Err? then Err(SignatureError)
        else if PublicKeyFromBytes(u.ed448, pk.ed448).Err? then Err(SignatureError)
        else if Verdict(u.ed448, u.shake, pk.ed448, Ed448Message(hash, h), Ed448Part(sig), None).Err? then
          Err(SignatureError)
        else Ok(())
  }

  // ---- keys that belong together --------------------------------------------------------

  /** The secret parts have the right form and the cached public key is theirs. */
  predicate Matched<E, N>(u: Suite<E, N>, key: PrivateKey) {
    && |key.dilithium| == MLDSA_SEED_SIZE
    && P521Secret(u, key).Some?
    && |key.ed448| == Ed448.PUBLIC_KEY_SIZE
    && key.public.dilithium == u.mlDsa.publicKey(key.dilithium)
    && key.public.p521 == u.p521.toSec1(P521.PublicPoint(u.p521, P521Secret(u, key).value))
    && key.public.ed448
       == Ed448.EncodePoint(u.ed448, Mul(u.ed448.group, u.ed448Secret(key.ed448), u.ed448.base))
  }

  /** The P-521 public point of a matched key is never the identity, so it decodes. */
  lemma P521KeyDecodes<E(!new), N(!new)>(u: Suite<E, N>, key: PrivateKey)
    requires LawfulSuite(u) && Matched(u, key)
    ensures |key.public.p521| == P521.PUBLIC_KEY_SIZE
    ensures u.p521.fromSec1(key.public.p521) == Some(P521.PublicPoint(u.p521, P521Secret(u, key).value))
  {
    hide Mul, IsGroup, Ed448.Lawful, Ed448.EncodePoint, FromBE, Prime;
    var c := u.p521;
    var d := P521Secret(u, key).value;
    assert P521.PointAt(c, P521.PublicPoint(c, d)) && P521.PointAt(c, c.generator);
    PrimeOrder(c.group, c.order, d, c.generator);
    ModSmall(d, c.order);
  }

  /** A matched key serialises to a valid public key exactly when its Ed448 scalar is not zero modulo L. */
  lemma MatchedIsValid<E(!new), N(!new)>(u: Suite<E, N>, key: PrivateKey)
    requires LawfulSuite(u) && Matched(u, key)
    ensures Sized(key.public)
    ensures ValidPublic(u, key.public) <==> u.ed448Secret(key.ed448) % u.ed448.order != 0
  {
    hide Mul, IsGroup, Ed448.Lawful, P521.Lawful, Ed448.CanonicalPoint, Ed448.EncodePoint;
    P521KeyDecodes(u, key);
    assert MlDsaAt(u.mlDsa, key.dilithium, []);
    AcceptedKey(u.ed448, u.ed448Secret(key.ed448));
  }

  lemma PartsOfComposite(a: seq<byte>, b: seq<byte>, c: seq<byte>)
    requires |a| == MLDSA_SIG_SIZE && |b| == P521.SIGNATURE_SIZE && |c| == Ed448.SIGNATURE_SIZE
    ensures |a + b + c| == COMPOSITE_SIG_SIZE
    ensures MlDsaPart(a + b + c) == a && P521Part(a + b + c) == b && Ed448Part(a + b + c) == c
  {
  }

  /**
   What is signed verifies, exactly when neither Ed448 scalar is zero modulo L; ML-DSA-87 and
   P-521 never fail on their own signatures.
   */
  lemma CompositeRoundTrip<E(!new), N(!new)>(u: Suite<E, N>, key: PrivateKey, hash: Hash32, h: seq<byte>, k: nat)
    requires LawfulSuite(u) && Matched(u, key) && GoodNonce(u, key, hash, h, k)
    ensures CompositeSign(u, key, hash, h, k).Ok?
    ensures |CompositeSign(u, key, hash, h, k).value| == COMPOSITE_SIG_SIZE
    ensures |key.public.ed448| == Ed448.PUBLIC_KEY_SIZE
    ensures CompositeVerify(u, key.public, hash, h, CompositeSign(u, key, hash, h, k).value).Ok? <==>
              && u.ed448Secret(key.ed448) % u.ed448.order != 0
              && u.ed448Nonce(key.ed448, Ed448Message(hash, h)) % u.ed448.order != 0
  {
    hide Mul, IsGroup, Ed448.Lawful, P521.Lawful, Ed448.CanonicalPoint, Ed448.EncodePoint, RfcSignature, Verdict,
         P521.SignMsg, P521.VerifySig, P521.GoodNonce, P521.PublicPoint, Ed448Message, P521Message;
    P521KeyDecodes(u, key);
    MatchedIsValid(u, key);
    assert MlDsaAt(u.mlDsa, key.dilithium, hash);
    var msg := Ed448Message(hash, h);
    RfcSignatureAccepted(u.ed448, u.shake, u.ed448Secret(key.ed448), u.ed448Nonce(key.ed448, msg), msg, None);
    P521.SignMsgAccepted(u.p521, P521Secret(u, key).value, k, P521Message(hash, h));
    var a := u.mlDsa.sign(key.dilithium, hash);
    var b := P521.SignMsg(u.p521, P521Secret(u, key).value, k, P521Message(hash, h));
    var c := Ed448Sign(u, key.ed448, msg);
    PartsOfComposite(a, b, c);
  }

  /**
   Acceptance needs all three schemes, each on its own part of the signature and its own message:
   ML-DSA-87 on the bare hash, P-521 and Ed448 on the hash, the binding hash and a curve id.
   */
  lemma AcceptedByAllThree<E(!new), N(!new)>(u: Suite<E, N>, pk: PublicKey, hash: Hash32, h: seq<byte>,
                                             a: seq<byte>, b: seq<byte>, c: seq<byte>)
    requires ValidPublic(u, pk)
    requires |a| == MLDSA_SIG_SIZE && |b| == P521.SIGNATURE_SIZE && |c| == Ed448.SIGNATURE_SIZE
    ensures CompositeVerify(u, pk, hash, h, a + b + c).Ok? <==>
              && u.mlDsa.verify(pk.dilithium, hash, a)
              && P521.VerifySig(u.p521, u.p521.fromSec1(pk.p521).value, P521Message(hash, h), b).Ok?
              && Verdict(u.ed448, u.shake, pk.ed448, Ed448Message(hash, h), c, None).Ok?
  {
    hide Verdict, P521.VerifySig, Ed448.CanonicalPoint;
    PartsOfComposite(a, b, c);
  }

  /** The signed messages determine the hash and the binding hash, and no message serves two curves. */
  lemma CurveMessagesSeparate(hash1: Hash32, h1: seq<byte>, hash2: Hash32, h2: seq<byte>)
    ensures Ed448Message(hash1, h1) == Ed448Message(hash2, h2) <==> hash1 == hash2 && h1 == h2
    ensures P521Message(hash1, h1) == P521Message(hash2, h2) <==> hash1 == hash2 && h1 == h2
    ensures P521Message(hash1, h1) != Ed448Message(hash2, h2)
  {
    var e1, e2 := Ed448Message(hash1, h1), Ed448Message(hash2, h2);
    var p1, p2 := P521Message(hash1, h1), P521Message(hash2, h2);
    assert hash1 == e1[..32] == p1[..32] && h1 == e1[32..|e1| - 1] == p1[32..|p1| - 1];
    assert hash2 == e2[..32] == p2[..32] && h2 == e2[32..|e2| - 1] == p2[32..|p2| - 1];
    assert p1[|p1| - 1] == 1 && e2[|e2| - 1] == 2;
  }

  /** Acceptance of a composite, with the offsets and the three messages written out. */
  lemma CompositeAsWritten<E(!new), N(!new)>(u: Suite<E, N>, pk: PublicKey, hash: Hash32, h: seq<byte>, sig: seq<byte>)
    requires |pk.ed448| == 57
    ensures var q := u.p521.fromSec1(pk.p521);
            CompositeVerify(u, pk, hash, h, sig).Ok? <==>
              && |sig| == 4873 && |pk.dilithium| == 2592 && u.mlDsa.verify(pk.dilithium, hash, sig[..4627])
              && q.Some? && P521.VerifySig(u.p521, q.value, hash + h + [1], sig[4627..4759]).Ok?
              && Verdict(u.ed448, u.shake, pk.ed448, hash + h + [2], sig[4759..], None).Ok?
    ensures CompositeVerify(u, pk, hash, h, sig) in [Ok(()), Err(SignatureError)]
  {
    hide P521.VerifySig, Ed448.CanonicalPoint, Verdict;
    if |sig| == 4873 {
      ErrorsAsReported(u.ed448, u.shake, pk.ed448, hash + h + [2], sig[4759..], None);
    }
  }
}
