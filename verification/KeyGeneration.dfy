/**
 Key generation from a root seed and composite signatures over general messages
 (src/crypto.rs).
 */
module KeyGeneration {
  import opened Outcomes
  import opened Bytes
  import opened Groups
  import opened Hashing
  import opened HdDerivation
  import opened Ed448Signature
  import opened CompositeKey
  import Ed448
  import P521
  import P521Derivation

  /** A call that returns a result or panics. */
  datatype Call<+T> = Returned(result: Result<T, CryptoError>) | Panicked

  /** The public key and the key bytes that belong to a root seed of at least 64 bytes. */
  function KeysOfSeed<E, N>(u: Suite<E, N>, seed: seq<byte>): Call<PrivateKey>
    requires |seed| >= 64
  {
    var mdecc := seed[32..64];
    var p521Seed := CurveSeed(u.shake, u.hkdf, mdecc, CURVE_ID_P521, P521.SEED_SIZE);
    if p521Seed.Err? then Returned(Err(p521Seed.error))
    else
      match P521Derivation.FirstScalar(u.sha512, p521Seed.value, 0)
      case None => Panicked
      case Some(d) =>
        var ed448Seed := CurveSeed(u.shake, u.hkdf, mdecc, CURVE_ID_ED448, Ed448.PUBLIC_KEY_SIZE);
        if ed448Seed.Err? then Returned(Err(ed448Seed.error))
        else
          var public := PublicKey(
            u.mlDsa.publicKey(seed[..32]),
            u.p521.toSec1(P521.PublicPoint(u.p521, d)),
            Ed448.EncodePoint(u.ed448, Mul(u.ed448.group, u.ed448Secret(ed448Seed.value), u.ed448.base)));
          Returned(Ok(PrivateKey(seed[..32], ToFixedBE(d, P521.PRIVATE_KEY_SIZE), ed448Seed.value, seed, public)))
  }

  /** A private key as generation leaves it: it is the key of the seed it stores. */
  predicate Generated<E, N>(u: Suite<E, N>, key: PrivateKey) {
    |key.seed| >= 64 && KeysOfSeed(u, key.seed) == Returned(Ok(key))
  }

  lemma DerivedScalarFits<E(!new), N(!new)>(u: Suite<E, N>, p521Seed: seq<byte>, d: nat)
    requires LawfulSuite(u) && P521Derivation.FirstScalar(u.sha512, p521Seed, 0) == Some(d)
    ensures 0 < d < u.p521.order && d < Pow256(P521.PRIVATE_KEY_SIZE)
  {
    hide Mul, Ed448.Lawful, IsGroup, FromBE, Pow256;
    P521Derivation.FirstScalarExact(u.sha512, p521Seed, 0, d);
    var at: nat :| P521Derivation.FirstNonzero(u.sha512, p521Seed, at, d);
    var digest := P521Derivation.DigestOf(u.sha512, p521Seed, at);
    assert P521Derivation.DigestAt(u.sha512, P521Derivation.PREFIX + p521Seed + [at]);
    P521Derivation.PaddedDigest(u.p521, digest);
    Pow256Monotonic(64, 66);
  }

  /**
   Where every part of a generated key comes from: the first 32 seed bytes are the ML-DSA-87 seed,
   the next 32 with a curve id behind them give the curve seeds through SHAKE-256 and HKDF, and
   the public parts are those of the secret ones.
   */
  lemma GeneratedParts<E(!new), N(!new)>(u: Suite<E, N>, seed: seq<byte>)
    requires LawfulSuite(u) && |seed| >= 64
    requires KeysOfSeed(u, seed).Returned? && KeysOfSeed(u, seed).result.Ok?
    ensures var key := KeysOfSeed(u, seed).result.value;
            && key.seed == seed && key.dilithium == seed[..32]
            && key.public.dilithium == u.mlDsa.publicKey(seed[..32])
    ensures var key := KeysOfSeed(u, seed).result.value;
            var p := Mul(u.ed448.group, u.ed448Secret(key.ed448), u.ed448.base);
            && u.hkdf(u.shake(seed[32..64] + [2], 32), 57) == Some(key.ed448)
            && key.public.ed448 == ToLE(u.ed448.y(p), 56) + [128 * (u.ed448.x(p) % 2)]
    ensures var key := KeysOfSeed(u, seed).result.value;
            var p521Seed := u.hkdf(u.shake(seed[32..64] + [1], 32), 66);
            && |key.p521| == 66 && p521Seed.Some?
            && P521Derivation.FirstDigestValue(u.sha512, p521Seed.value, FromBE(key.p521))
            && key.public.p521 == u.p521.toSec1(Mul(u.p521.group, FromBE(key.p521), u.p521.generator))
  {
    hide P521Derivation.FirstDigestValue, P521Derivation.FirstScalar, Mul, Ed448.Lawful, IsGroup, ToFixedBE, FromBE,
         Pow256, ToLE;
    var mdecc := seed[32..64];
    var p521Seed := CurveSeed(u.shake, u.hkdf, mdecc, CURVE_ID_P521, P521.SEED_SIZE).value;
    var d := P521Derivation.FirstScalar(u.sha512, p521Seed, 0).value;
    P521Derivation.FirstScalarBytes(u.sha512, p521Seed, d);
    DerivedScalarFits(u, p521Seed, d);
    FromToFixedBE(d, P521.PRIVATE_KEY_SIZE);
  }

  /** When generation does not give a key: HKDF refuses a length, or all 256 P-521 digests are zero. */
  lemma NotGenerated<E(!new), N(!new)>(u: Suite<E, N>, seed: seq<byte>)
    requires |seed| >= 64
    ensures var p521Seed := u.hkdf(u.shake(seed[32..64] + [1], 32), 66);
            var ed448Seed := u.hkdf(u.shake(seed[32..64] + [2], 32), 57);
            match KeysOfSeed(u, seed)
            case Panicked =>
              p521Seed.Some? && forall d: nat :: !P521Derivation.FirstDigestValue(u.sha512, p521Seed.value, d)
            case Returned(Err(e)) => e == Custom && (p521Seed.None? || ed448Seed.None?)
            case Returned(Ok(_)) => p521Seed.Some? && ed448Seed.Some?
  {
    hide P521Derivation.FirstDigestValue, P521Derivation.FirstScalar, P521.PublicPoint, Ed448.EncodePoint, Mul,
         ToFixedBE;
    var p521Seed := u.hkdf(u.shake(seed[32..64] + [1], 32), 66);
    if p521Seed.Some? {
      forall d: nat
        ensures P521Derivation.FirstScalar(u.sha512, p521Seed.value, 0) == Some(d) <==>
                  P521Derivation.FirstDigestValue(u.sha512, p521Seed.value, d)
      {
        P521Derivation.FirstScalarBytes(u.sha512, p521Seed.value, d);
      }
    }
  }

  /** `BlackChainPrivateKey::generate`. */
  method Generate<E(!new), N(!new)>(u: Suite<E, N>, seed: seq<byte>) returns (outcome: Call<PrivateKey>)
    requires LawfulSuite(u)
    ensures |seed| < 64 ==> outcome == Returned(Err(SeedError))
    ensures |seed| >= 64 ==> outcome == KeysOfSeed(u, seed)
    ensures outcome.Returned? && outcome.result.Ok? ==>
              outcome.result.value.seed == seed && Generated(u, outcome.result.value)
    ensures outcome.Returned? && outcome.result.Ok? ==>
              && outcome.result.value.dilithium == seed[..32]
              && u.hkdf(u.shake(seed[32..64] + [2], 32), 57) == Some(outcome.result.value.ed448)
  {
    hide P521.PublicPoint, Ed448.EncodePoint, Mul, Ed448.Lawful, IsGroup;
    if |seed| < 64 {
      return Returned(Err(SeedError));
    }
    var dilSeed := seed[..32];
    var dilPk := u.mlDsa.publicKey(dilSeed);
    var mdeccSeed := seed[32..64];
    var p521Seed := CurveSeed(u.shake, u.hkdf, mdeccSeed, CURVE_ID_P521, P521.SEED_SIZE);
    if p521Seed.Err? {
      return Returned(Err(p521Seed.error));
    }
    assert HkdfAt(u, u.shake(mdeccSeed + [CURVE_ID_P521], 32), P521.SEED_SIZE);
    var p521Keys := P521Derivation.DeriveKeypairFromSeed(u.p521, u.sha512, p521Seed.value);
    if !p521Keys.KeyPair? {
      return Panicked;
    }
    var ed448Seed := CurveSeed(u.shake, u.hkdf, mdeccSeed, CURVE_ID_ED448, Ed448.PUBLIC_KEY_SIZE);
    if ed448Seed.Err? {
      return Returned(Err(ed448Seed.error));
    }
    var ed448Pk := Ed448.EncodePoint(u.ed448, Mul(u.ed448.group, u.ed448Secret(ed448Seed.value), u.ed448.base));
    var public := PublicKey(dilPk, u.p521.toSec1(p521Keys.public), ed448Pk);
    return Returned(Ok(PrivateKey(dilSeed, ToFixedBE(p521Keys.secret, P521.PRIVATE_KEY_SIZE),
                                  ed448Seed.value, seed, public)));
  }

  /** Generated parts belong together, so the key can sign and its signatures verify. */
  lemma GeneratedIsMatched<E(!new), N(!new)>(u: Suite<E, N>, seed: seq<byte>)
    requires LawfulSuite(u) && |seed| >= 64
    requires KeysOfSeed(u, seed).Returned? && KeysOfSeed(u, seed).result.Ok?
    ensures Matched(u, KeysOfSeed(u, seed).result.value)
  {
    hide P521.PublicPoint, Ed448.EncodePoint, Mul, Ed448.Lawful, IsGroup, ToFixedBE, FromBE, Pow256;
    var mdecc := seed[32..64];
    var p521Seed := CurveSeed(u.shake, u.hkdf, mdecc, CURVE_ID_P521, P521.SEED_SIZE).value;
    assert HkdfAt(u, u.shake(mdecc + [CURVE_ID_P521], 32), P521.SEED_SIZE);
    assert HkdfAt(u, u.shake(mdecc + [CURVE_ID_ED448], 32), Ed448.PUBLIC_KEY_SIZE);
    var d := P521Derivation.FirstScalar(u.sha512, p521Seed, 0).value;
    DerivedScalarFits(u, p521Seed, d);
    FromToFixedBE(d, P521.PRIVATE_KEY_SIZE);
  }

  /** Two seeds that agree on their first 64 bytes give the same keys and the same address. */
  lemma OnlyFirst64Bytes<E(!new), N(!new)>(u: Suite<E, N>, seed: seq<byte>, more: seq<byte>)
    requires |seed| >= 64
    ensures var a, b := KeysOfSeed(u, seed), KeysOfSeed(u, seed[..64] + more);
            match a
            case Panicked => b == Panicked
            case Returned(Err(e)) => b == Returned(Err(e))
            case Returned(Ok(key)) => b == Returned(Ok(key.(seed := seed[..64] + more)))
  {
    hide P521.PublicPoint, Ed448.EncodePoint, CurveSeed, P521Derivation.FirstScalar, ToFixedBE, Mul;
    var s' := seed[..64] + more;
    assert s'[..32] == seed[..32] && s'[32..64] == seed[32..64];
  }

  /**
   `derive_public_key`: the three derivations once more, from the stored seed and without the
   secret parts. It panics on a stored seed too short to slice, and gives the cached public key
   of every generated key.
   */
  method DerivePublicKey<E(!new), N(!new)>(u: Suite<E, N>, key: PrivateKey) returns (outcome: Call<PublicKey>)
    requires LawfulSuite(u)
    ensures |key.seed| < 64 ==> outcome == Panicked
    ensures |key.seed| >= 64 ==>
              match KeysOfSeed(u, key.seed)
              case Panicked => outcome == Panicked
              case Returned(Err(e)) => outcome == Returned(Err(e))
              case Returned(Ok(k)) => outcome == Returned(Ok(k.public))
    ensures Generated(u, key) ==> outcome == Returned(Ok(key.public))
  {
    hide P521.PublicPoint, Ed448.EncodePoint, Mul, Ed448.Lawful, IsGroup, ToFixedBE;
    var seed := key.seed;
    if |seed| < 32 {
      return Panicked;
    }
    var dilPk := u.mlDsa.publicKey(seed[..32]);
    if |seed| < 64 {
      return Panicked;
    }
    var mdeccSeed := seed[32..64];
    var p521Seed := CurveSeed(u.shake, u.hkdf, mdeccSeed, CURVE_ID_P521, P521.SEED_SIZE);
    if p521Seed.Err? {
      return Returned(Err(p521Seed.error));
    }
    assert HkdfAt(u, u.shake(mdeccSeed + [CURVE_ID_P521], 32), P521.SEED_SIZE);
    var p521Keys := P521Derivation.DeriveKeypairFromSeed(u.p521, u.sha512, p521Seed.value);
    if !p521Keys.KeyPair? {
      return Panicked;
    }
    var ed448Seed := CurveSeed(u.shake, u.hkdf, mdeccSeed, CURVE_ID_ED448, Ed448.PUBLIC_KEY_SIZE);
    if ed448Seed.Err? {
      return Returned(Err(ed448Seed.error));
    }
    var ed448Pk := Ed448.EncodePoint(u.ed448, Mul(u.ed448.group, u.ed448Secret(ed448Seed.value), u.ed448.base));
    return Returned(Ok(PublicKey(dilPk, u.p521.toSec1(p521Keys.public), ed448Pk)));
  }

  // ---- general messages ---------------------------------------------------------

  /** General messages use sixteen zero bytes in place of the chain-bound nonce. */
  const ZERO_NONCE: seq<byte> := [0, 0, 0, 0, 0, 0, 0, 0, 0, 0, 0, 0, 0, 0, 0, 0]

  /** The three signatures over a hash, one after the other, as messages and transactions both need them. */
  method SignHash<E, N>(u: Suite<E, N>, key: PrivateKey, hash: Hash32, hCombined: seq<byte>, k: nat)
    returns (result: Result<seq<byte>, CryptoError>)
    requires GoodNonce(u, key, hash, hCombined, k)
    ensures result == CompositeSign(u, key, hash, hCombined, k)
  {
    hide P521.SignMsg, P521.GoodNonce, Ed448Sign;
    if |key.dilithium| != MLDSA_SEED_SIZE {
      return Err(SignatureError);
    }
    var dilSig := u.mlDsa.sign(key.dilithium, hash);
    var d := P521Secret(u, key);
    if d == None {
      return Err(CurveError);
    }
    var p521Sig := P521.SignMsg(u.p521, d.value, k, hash + hCombined + [CURVE_ID_P521]);
    if |key.ed448| != Ed448.PUBLIC_KEY_SIZE {
      return Err(SignatureError);
    }
    var ed448Sig := Ed448Sign(u, key.ed448, hash + hCombined + [CURVE_ID_ED448]);
    var composite: seq<byte> := [];
    composite := composite + dilSig;
    composite := composite + p521Sig;
    composite := composite + ed448Sig;
    assert composite == dilSig + p521Sig + ed448Sig;
    return Ok(composite);
  }

  method SignMessage<E, N>(u: Suite<E, N>, key: PrivateKey, message: seq<byte>, k: nat)
    returns (result: Result<seq<byte>, CryptoError>)
    requires GoodNonce(u, key, u.keccak(message), HCombined(u, key.public, ZERO_NONCE), k)
    ensures result == CompositeSign(u, key, u.keccak(message), HCombined(u, key.public, ZERO_NONCE), k)
  {
    hide GoodNonce, CompositeSign;
    var hash := u.keccak(message);
    var shake := new Shake256();
    shake.Update(key.public.dilithium);
    assert [] + key.public.dilithium == key.public.dilithium;
    shake.Update(key.public.p521);
    shake.Update(key.public.ed448);
    shake.Update(ZERO_NONCE);
    var hCombined := shake.Read(u.shake, 32);
    result := SignHash(u, key, hash, hCombined, k);
  }

  function VerifyMessage<E(==), N(==)>(u: Suite<E, N>, pk: PublicKey, message: seq<byte>, sig: seq<byte>)
    : Result<bool, CryptoError>
    requires |pk.ed448| == Ed448.PUBLIC_KEY_SIZE
  {
    var _ :- CompositeVerify(u, pk, u.keccak(message), HCombined(u, pk, ZERO_NONCE), sig);
    Ok(true)
  }

  /** What `sign_message` signs, written out. */
  lemma MessageSignatureBytes<E, N>(u: Suite<E, N>, key: PrivateKey, message: seq<byte>, k: nat)
    requires GoodNonce(u, key, u.keccak(message), HCombined(u, key.public, ZERO_NONCE), k)
    requires |key.dilithium| == 32 && |key.ed448| == 57 && P521Secret(u, key).Some?
    ensures var pk := key.public;
            var keys := pk.dilithium + pk.p521 + pk.ed448;
            var hash := u.keccak(message);
            var h := u.shake(keys + [0, 0, 0, 0, 0, 0, 0, 0, 0, 0, 0, 0, 0, 0, 0, 0], 32);
            var (a, r) := (u.ed448Secret(key.ed448), u.ed448Nonce(key.ed448, hash + h + [2]));
            && P521.GoodNonce(u.p521, FromBE(key.p521), k, hash + h + [1])
            && CompositeSign(u, key, hash, HCombined(u, pk, ZERO_NONCE), k)
               == Ok(u.mlDsa.sign(key.dilithium, hash)
                     + P521.SignMsg(u.p521, FromBE(key.p521), k, hash + h + [1])
                     + RfcSignature(u.ed448, u.shake, a, r, hash + h + [2], None))
  {
    hide P521.GoodNonce, P521.SignMsg, RfcSignature, FromBE;
  }

  /** What `verify_message` checks, written out: the three parts of key and signature at their offsets. */
  lemma MessageAcceptedAsWritten<E(!new), N(!new)>(u: Suite<E, N>, pk: PublicKey, message: seq<byte>, sig: seq<byte>)
    requires |pk.ed448| == 57
    ensures var keys := pk.dilithium + pk.p521 + pk.ed448;
            var hash := u.keccak(message);
            var h := u.shake(keys + [0, 0, 0, 0, 0, 0, 0, 0, 0, 0, 0, 0, 0, 0, 0, 0], 32);
            var q := u.p521.fromSec1(pk.p521);
            VerifyMessage(u, pk, message, sig) == Ok(true) <==>
              && |sig| == 4873 && |pk.dilithium| == 2592 && u.mlDsa.verify(pk.dilithium, hash, sig[..4627])
              && q.Some? && P521.VerifySig(u.p521, q.value, hash + h + [1], sig[4627..4759]).Ok?
              && Verdict(u.ed448, u.shake, pk.ed448, hash + h + [2], sig[4759..], None).Ok?
    ensures VerifyMessage(u, pk, message, sig) in [Ok(true), Err(SignatureError)]
  {
    hide P521.VerifySig, Verdict, CompositeVerify;
    CompositeAsWritten(u, pk, u.keccak(message), HCombined(u, pk, ZERO_NONCE), sig);
  }

  /**
   Generate, sign, verify: the generated key verifies its own message signature exactly when
   neither Ed448 scalar is zero modulo L.
   */
  lemma GeneratedKeySigns<E(!new), N(!new)>(u: Suite<E, N>, seed: seq<byte>, message: seq<byte>, k: nat)
    requires LawfulSuite(u) && |seed| >= 64
    requires KeysOfSeed(u, seed).Returned? && KeysOfSeed(u, seed).result.Ok?
    requires var key := KeysOfSeed(u, seed).result.value;
             GoodNonce(u, key, u.keccak(message), HCombined(u, key.public, ZERO_NONCE), k)
    ensures var key := KeysOfSeed(u, seed).result.value;
            var hash, h := u.keccak(message), HCombined(u, key.public, ZERO_NONCE);
            var signed := CompositeSign(u, key, hash, h, k);
            && signed.Ok? && |key.public.ed448| == Ed448.PUBLIC_KEY_SIZE
            && (VerifyMessage(u, key.public, message, signed.value) == Ok(true) <==>
                  && u.ed448Secret(key.ed448) % u.ed448.order != 0
                  && u.ed448Nonce(key.ed448, Ed448Message(hash, h)) % u.ed448.order != 0)
  {
    hide KeysOfSeed, Matched, LawfulSuite, CompositeSign, CompositeVerify, GoodNonce;
    var key := KeysOfSeed(u, seed).result.value;
    GeneratedIsMatched(u, seed);
    CompositeRoundTrip(u, key, u.keccak(message), HCombined(u, key.public, ZERO_NONCE), k);
  }
}
