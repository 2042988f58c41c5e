/**
 Transaction signing and sender recovery (src/transaction/signing.rs), composed with the wire
 codec: what signing produces, what recovery accepts, and what an accepted transaction pins down.
 */
module Signing {
  import opened Outcomes
  import opened Bytes
  import opened Rlp
  import opened Hashing
  import opened Transaction
  import opened Ed448Signature
  import opened CompositeKey
  import opened KeyGeneration
  import Ed448
  import P521

  const TX_TYPE: byte := 0x80
  const ALGO_ID: byte := 1
  const VERSION: byte := 1

  /** The bytes of "entangle". */
  const ENTANGLE: seq<byte> := [101, 110, 116, 97, 110, 103, 108, 101]

  // ---- preimages -------------------------------------------------------------

  /** The type byte and the unsigned list. */
  function SignaturePreimage(tx: Tx): seq<byte>
    requires Fits(tx.Unsigned())
  {
    [TX_TYPE] + EncodeTx(tx.Unsigned())
  }

  function SignatureHash<E, N>(u: Suite<E, N>, tx: Tx): Hash32
    requires Fits(tx.Unsigned())
  {
    u.keccak(SignaturePreimage(tx))
  }

  function NoncePreimage(chainId: u64, address: Address): seq<byte> {
    ENTANGLE + [ALGO_ID] + [VERSION] + ToFixedBE(chainId, 8) + address
  }

  function EntanglementNonce<E, N>(u: Suite<E, N>, chainId: u64, address: Address): seq<byte> {
    u.shake(NoncePreimage(chainId, address), 16)
  }

  /** The binding hash of a key on a chain. */
  function ChainBinding<E, N>(u: Suite<E, N>, chainId: u64, pk: PublicKey): seq<byte> {
    HCombined(u, pk, EntanglementNonce(u, chainId, DeriveAddress(u, pk)))
  }

  function Wrap256(n: nat): u256 {
    n % 0x1_00000000_00000000_00000000_00000000_00000000_00000000_00000000_00000000
  }

  /** `U256::from(chain_id) * 2 + 35`, with the wrap-around of 256-bit arithmetic. */
  function ExpectedV(chainId: u64): u256 {
    Wrap256(Wrap256(chainId * 2) + 35)
  }

  // ---- signing and recovery --------------------------------------------------------

  /** The signed transaction: signature, key and the pinned envelope. */
  function SignedForm(tx: Tx, sig: seq<byte>, pk: seq<byte>): Tx {
    tx.(v := Some(ExpectedV(tx.chainId)), r := Some(0), s := Some(0),
        pqcSignature := Some(sig), pubKey := Some(pk))
  }

  /** The P-521 nonce is one the library keeps for this transaction. */
  predicate GoodTxNonce<E, N>(u: Suite<E, N>, tx: Tx, key: PrivateKey, k: nat)
    requires Fits(tx.Unsigned())
  {
    GoodNonce(u, key, SignatureHash(u, tx), ChainBinding(u, tx.chainId, key.public), k)
  }

  function SignTx<E, N>(u: Suite<E, N>, tx: Tx, key: PrivateKey, k: nat): Result<Tx, CryptoError>
    requires Fits(tx.Unsigned()) && GoodTxNonce(u, tx, key, k)
  {
    var sig :- CompositeSign(u, key, SignatureHash(u, tx), ChainBinding(u, tx.chainId, key.public), k);
    Ok(SignedForm(tx, sig, ToBytes(key.public)))
  }

  function VerifySignature<E(==), N(==)>(u: Suite<E, N>, txHash: Hash32, chainId: u64,
                                         pubKeyBytes: seq<byte>, pqcSig: seq<byte>)
    : Result<Address, CryptoError>
  {
    var pk :- FromBytes(u, pubKeyBytes);
    var _ :- CompositeVerify(u, pk, txHash, ChainBinding(u, chainId, pk), pqcSig);
    Ok(DeriveAddress(u, pk))
  }

  function RecoverSender<E(==), N(==)>(u: Suite<E, N>, tx: Tx): Result<Address, CryptoError>
    requires Fits(tx.Unsigned())
  {
    if tx.pqcSignature == None then Err(SignatureError)
    else if tx.pubKey == None then Err(SignatureError)
    else if tx.v != Some(ExpectedV(tx.chainId)) || tx.r != Some(0) || tx.s != Some(0) then Err(SignatureError)
    else VerifySignature(u, SignatureHash(u, tx), tx.chainId, tx.pubKey.value, tx.pqcSignature.value)
  }

  // ---- the two hashes, step by step ---------------------------------------------------

  method ComputeEntanglementNonce<E, N>(u: Suite<E, N>, chainId: u64, address: Address) returns (nonce: seq<byte>)
    ensures nonce == EntanglementNonce(u, chainId, address)
  {
    var shake := new Shake256();
    shake.Update([101, 110, 116, 97, 110, 103, 108, 101]);
    assert [] + ENTANGLE == ENTANGLE;
    shake.Update([ALGO_ID]);
    shake.Update([VERSION]);
    shake.Update(ToFixedBE(chainId, 8));
    shake.Update(address);
    nonce := shake.Read(u.shake, 16);
  }

  method ComputeHCombined<E, N>(u: Suite<E, N>, pk: PublicKey, entgNonce: seq<byte>) returns (h: seq<byte>)
    ensures h == HCombined(u, pk, entgNonce)
  {
    var shake := new Shake256();
    shake.Update(pk.dilithium);
    assert [] + pk.dilithium == pk.dilithium;
    shake.Update(pk.p521);
    shake.Update(pk.ed448);
    shake.Update(entgNonce);
    h := shake.Read(u.shake, 32);
  }

  // ---- the preimages determine what they commit to ---------------------------------------

  /** The hashed bytes determine the eight economic fields, and nothing else. */
  lemma PreimageInjective(a: Tx, b: Tx)
    requires Fits(a.Unsigned()) && Fits(b.Unsigned())
    ensures SignaturePreimage(a) == SignaturePreimage(b) <==> a.Unsigned() == b.Unsigned()
  {
    hide EncodeTx, Fits;
    if SignaturePreimage(a) == SignaturePreimage(b) {
      assert EncodeTx(a.Unsigned()) == SignaturePreimage(a)[1..];
      assert EncodeTx(b.Unsigned()) == SignaturePreimage(b)[1..];
      SameEncoding(a.Unsigned(), b.Unsigned());
    }
  }

  /** An explicit pair of distinct inputs with one Keccak-256 digest. */
  predicate KeccakCollision<E, N>(u: Suite<E, N>, x: seq<byte>, y: seq<byte>) {
    x != y && u.keccak(x) == u.keccak(y)
  }

  /** An explicit pair of distinct inputs with one SHAKE-256 output of n bytes. */
  predicate ShakeCollision<E, N>(u: Suite<E, N>, n: nat, x: seq<byte>, y: seq<byte>) {
    x != y && u.shake(x, n) == u.shake(y, n)
  }

  /** Equal signature hashes mean equal economic fields, or the two preimages collide. */
  lemma EqualHashes<E(!new), N(!new)>(u: Suite<E, N>, a: Tx, b: Tx)
    requires Fits(a.Unsigned()) && Fits(b.Unsigned())
    ensures SignatureHash(u, a) == SignatureHash(u, b) <==>
              || a.Unsigned() == b.Unsigned()
              || KeccakCollision(u, SignaturePreimage(a), SignaturePreimage(b))
  {
    hide SignaturePreimage, Fits;
    PreimageInjective(a, b);
  }

  lemma NoncePreimageInjective(c1: u64, a1: Address, c2: u64, a2: Address)
    ensures NoncePreimage(c1, a1) == NoncePreimage(c2, a2) <==> c1 == c2 && a1 == a2
  {
    hide ToFixedBE, FromBE;
    if NoncePreimage(c1, a1) == NoncePreimage(c2, a2) {
      var p := NoncePreimage(c1, a1);
      assert ToFixedBE(c1, 8) == p[10..18] == ToFixedBE(c2, 8);
      assert a1 == p[18..] == a2;
      Widths();
      FromToFixedBE(c1, 8);
      FromToFixedBE(c2, 8);
    }
  }

  /** Fixed widths: the binding preimage determines the key and the nonce. */
  lemma BindingPreimageInjective(pk1: PublicKey, n1: seq<byte>, pk2: PublicKey, n2: seq<byte>)
    requires Sized(pk1) && Sized(pk2)
    ensures ToBytes(pk1) + n1 == ToBytes(pk2) + n2 <==> pk1 == pk2 && n1 == n2
  {
    if ToBytes(pk1) + n1 == ToBytes(pk2) + n2 {
      var p := ToBytes(pk1) + n1;
      assert ToBytes(pk1) == p[..COMPOSITE_PK_SIZE] == ToBytes(pk2);
      assert n1 == p[COMPOSITE_PK_SIZE..] == n2;
      PartsOfBytes(pk1, pk2);
    }
  }

  /** Equal binding hashes mean one key on one chain, or an explicit SHAKE-256 collision. */
  lemma BindingDetermines<E(!new), N(!new)>(u: Suite<E, N>, c1: u64, pk1: PublicKey, c2: u64, pk2: PublicKey)
    requires Sized(pk1) && Sized(pk2)
    requires ChainBinding(u, c1, pk1) == ChainBinding(u, c2, pk2)
    ensures var a1, a2 := DeriveAddress(u, pk1), DeriveAddress(u, pk2);
            var n1, n2 := EntanglementNonce(u, c1, a1), EntanglementNonce(u, c2, a2);
            || (c1 == c2 && pk1 == pk2)
            || ShakeCollision(u, 32, ToBytes(pk1) + n1, ToBytes(pk2) + n2)
            || ShakeCollision(u, 16, NoncePreimage(c1, a1), NoncePreimage(c2, a2))
  {
    hide ToBytes, NoncePreimage, DeriveAddress;
    var a1, a2 := DeriveAddress(u, pk1), DeriveAddress(u, pk2);
    BindingPreimageInjective(pk1, EntanglementNonce(u, c1, a1), pk2, EntanglementNonce(u, c2, a2));
    NoncePreimageInjective(c1, a1, c2, a2);
  }

  // ---- the transaction object ----------------------------------------------------------

  /** A transaction as the mutable value `sign_transaction` updates in place. */
  class TransactionCell {
    var chainId: u64
    var nonce: u64
    var maxPriorityFeePerGas: u256
    var maxFeePerGas: u256
    var gasLimit: u64
    var to: Option<Address>
    var value: u256
    var data: seq<byte>
    var v: Option<u256>
    var r: Option<u256>
    var s: Option<u256>
    var pqcSignature: Option<seq<byte>>
    var pubKey: Option<seq<byte>>

    constructor (tx: Tx)
      ensures Contents() == tx
    {
      chainId, nonce, maxPriorityFeePerGas := tx.chainId, tx.nonce, tx.maxPriorityFeePerGas;
      maxFeePerGas, gasLimit, to, value, data := tx.maxFeePerGas, tx.gasLimit, tx.to, tx.value, tx.data;
      v, r, s, pqcSignature, pubKey := tx.v, tx.r, tx.s, tx.pqcSignature, tx.pubKey;
    }

    function Contents(): Tx
      reads this
    {
      Tx(chainId, nonce, maxPriorityFeePerGas, maxFeePerGas, gasLimit, to, value, data,
         v, r, s, pqcSignature, pubKey)
    }

    /** Signs in place; a failure changes nothing, and the hash that was signed stays the hash. */
    method SignTransaction<E, N>(u: Suite<E, N>, key: PrivateKey, k: nat) returns (result: Result<(), CryptoError>)
      requires Fits(Contents().Unsigned()) && GoodTxNonce(u, Contents(), key, k)
      modifies this`v, this`r, this`s, this`pqcSignature, this`pubKey
      ensures match SignTx(u, old(Contents()), key, k)
              case Ok(signed) => result == Ok(()) && Contents() == signed
              case Err(e) => result == Err(e) && Contents() == old(Contents())
      ensures Contents().Unsigned() == old(Contents()).Unsigned()
      ensures SignatureHash(u, Contents()) == old(SignatureHash(u, Contents()))
    {
      hide CompositeSign, GoodNonce, Fits, SignaturePreimage, DeriveAddress, EntanglementNonce, HCombined, ToBytes,
           ExpectedV;
      ghost var before := Contents();
      var hash := SignatureHash(u, Contents());
      var address := DeriveAddress(u, key.public);
      var entgNonce := ComputeEntanglementNonce(u, chainId, address);
      var hCombined := ComputeHCombined(u, key.public, entgNonce);
      var composite :- SignHash(u, key, hash, hCombined, k);

      pqcSignature := Some(composite);
      pubKey := Some(ToBytes(key.public));
      v := Some(ExpectedV(chainId));
      r := Some(0);
      s := Some(0);
      assert Contents() == SignedForm(before, composite, ToBytes(key.public));
      PreimageInjective(before, Contents());
      return Ok(());
    }
  }

  // ---- the envelope --------------------------------------------------------------------------

  lemma NoWrap(n: nat)
    requires n < 0x1_0000_0000_0000_0000_0000
    ensures Wrap256(n) == n
  {
  }

  /** The placeholder never wraps, and determines the chain id. */
  lemma ExpectedVNeverWraps(chainId: u64, other: u64)
    ensures ExpectedV(chainId) == 2 * chainId + 35
    ensures ExpectedV(chainId) == ExpectedV(other) <==> chainId == other
  {
    hide Wrap256;
    NoWrap(chainId * 2);
    NoWrap(chainId * 2 + 35);
    NoWrap(other * 2);
    NoWrap(other * 2 + 35);
  }

  /** Signing changes no economic field and gives a transaction that is already normal. */
  lemma SignedFormFacts(tx: Tx, sig: seq<byte>, pk: seq<byte>)
    requires pk != []
    ensures SignedForm(tx, sig, pk).Unsigned() == tx.Unsigned()
    ensures SignedForm(tx, sig, pk).NormalForm() == SignedForm(tx, sig, pk)
  {
  }

  /** A transaction that recovers is the signed form of its own fields. */
  lemma RecoveredIsSignedForm<E(!new), N(!new)>(u: Suite<E, N>, tx: Tx)
    requires Fits(tx.Unsigned()) && RecoverSender(u, tx).Ok?
    ensures tx.pqcSignature.Some? && tx.pubKey.Some?
    ensures tx == SignedForm(tx.Unsigned(), tx.pqcSignature.value, tx.pubKey.value)
  {
  }

  // ---- signed transactions as bytes ---------------------------------------------------------

  /** A byte string read as one signed transaction: decoded, fully consumed, its sender recovered. */
  function ReadSigned<E(==), N(==)>(u: Suite<E, N>, b: seq<byte>): (read: Option<(Tx, Address)>)
    ensures read.Some? ==>
              && DecodeTx(b) == Parsed(Ok(read.value.0), [])
              && Fits(read.value.0.Unsigned()) && RecoverSender(u, read.value.0) == Ok(read.value.1)
  {
    hide DecodeTx, RecoverSender, Fits;
    var Parsed(o, rest) := DecodeTx(b);
    if o.Err? || rest != [] then None
    else
      DecodedUnsignedFits(b);
      match RecoverSender(u, o.value)
      case Err(_) => None
      case Ok(sender) => Some((o.value, sender))
  }

  /** A fully consumed transaction that recovers is read. */
  lemma ReadOf<E(!new), N(!new)>(u: Suite<E, N>, b: seq<byte>, tx: Tx)
    requires DecodeTx(b) == Parsed(Ok(tx), []) && Fits(tx.Unsigned()) && RecoverSender(u, tx).Ok?
    ensures ReadSigned(u, b) == Some((tx, RecoverSender(u, tx).value))
  {
    hide DecodeTx, RecoverSender, Fits;
  }

  lemma SizedOfValid<E(!new), N(!new)>(u: Suite<E, N>, pk: PublicKey)
    requires ValidPublic(u, pk)
    ensures Sized(pk)
  {
  }

  /** What a transaction that recovers was checked against. */
  lemma RecoveredFacts<E(!new), N(!new)>(u: Suite<E, N>, tx: Tx) returns (pk: PublicKey)
    requires Fits(tx.Unsigned()) && RecoverSender(u, tx).Ok?
    ensures tx.pqcSignature.Some? && tx.pubKey == Some(ToBytes(pk)) && ValidPublic(u, pk) && Sized(pk)
    ensures RecoverSender(u, tx) == Ok(DeriveAddress(u, pk))
    ensures CompositeVerify(u, pk, SignatureHash(u, tx), ChainBinding(u, tx.chainId, pk), tx.pqcSignature.value).Ok?
    ensures tx == SignedForm(tx, tx.pqcSignature.value, ToBytes(pk))
  {
    hide Fits, CompositeVerify, FromBytes, ValidPublic, ToBytes, DeriveAddress, HCombined, EntanglementNonce,
         ExpectedV, SignaturePreimage;
    pk := FromBytes(u, tx.pubKey.value).value;
    FromBytesExact(u, tx.pubKey.value, pk);
    SizedOfValid(u, pk);
  }

  lemma RecoveredIsNormal<E(!new), N(!new)>(u: Suite<E, N>, tx: Tx)
    requires Fits(tx.Unsigned()) && RecoverSender(u, tx).Ok?
    ensures tx == tx.NormalForm()
  {
    hide Fits, FromBytes, CompositeVerify;
    var pk := RecoveredFacts(u, tx);
    SignedFormFacts(tx, tx.pqcSignature.value, ToBytes(pk));
  }

  /** `b` is the current, not the legacy, wire form of tx. */
  ghost predicate EncodeTxOf(tx: Tx, b: seq<byte>) {
    Fits(tx) && b == EncodeTx(tx) + []
  }

  /**
   The byte strings read as signed transactions are the current encodings of the transactions
   that recover: the legacy form and every other deviation drop out.
   */
  lemma ReadsExactly<E(!new), N(!new)>(u: Suite<E, N>, b: seq<byte>, tx: Tx, sender: Address)
    ensures ReadSigned(u, b) == Some((tx, sender)) <==>
              && Fits(tx) && b == EncodeTx(tx)
              && Fits(tx.Unsigned()) && RecoverSender(u, tx) == Ok(sender)
  {
    hide DecodeTx, RecoverSender, EncodeTx, Fits, ReadSigned;
    if ReadSigned(u, b) == Some((tx, sender)) {
      RecoveredIsSignedForm(u, tx);
      AcceptedExactly(b, tx, []);
      assert EncodeTxOf(tx, b);
    }
    if Fits(tx) && b == EncodeTx(tx) && Fits(tx.Unsigned()) && RecoverSender(u, tx) == Ok(sender) {
      RecoveredIsNormal(u, tx);
      RoundTrip(tx, []);
      assert b + [] == b;
      ReadOf(u, b, tx);
    }
  }

  /**
   The signed wire form is unique: byte strings read as signed transactions that agree on
   economic fields, signature and key are the same bytes.
   */
  lemma SignedWireFormUnique<E(!new), N(!new)>(u: Suite<E, N>, b1: seq<byte>, b2: seq<byte>)
    requires ReadSigned(u, b1).Some? && ReadSigned(u, b2).Some?
    requires var t1, t2 := ReadSigned(u, b1).value.0, ReadSigned(u, b2).value.0;
             t1.Unsigned() == t2.Unsigned() && t1.pqcSignature == t2.pqcSignature && t1.pubKey == t2.pubKey
    ensures b1 == b2
  {
    hide DecodeTx, RecoverSender, EncodeTx, Fits, ReadSigned;
    var t1, t2 := ReadSigned(u, b1).value.0, ReadSigned(u, b2).value.0;
    RecoveredIsSignedForm(u, t1);
    RecoveredIsSignedForm(u, t2);
    AcceptedExactly(b1, t1, []);
    AcceptedExactly(b2, t2, []);
    assert EncodeTxOf(t1, b1) && EncodeTxOf(t2, b2);
  }

  // ---- sign, encode, decode, recover ------------------------------------------------------------

  /** Recovery of a signed form: a valid key and a composite signature that verifies, nothing else. */
  lemma RecoverOfSignedForm<E(!new), N(!new)>(u: Suite<E, N>, tx: Tx, sig: seq<byte>, pk: PublicKey)
    requires Sized(pk) && Fits(tx.Unsigned())
    ensures var signed := SignedForm(tx, sig, ToBytes(pk));
            var verdict := CompositeVerify(u, pk, SignatureHash(u, tx), ChainBinding(u, tx.chainId, pk), sig);
            && signed.Unsigned() == tx.Unsigned()
            && RecoverSender(u, signed).Ok? == (ValidPublic(u, pk) && verdict.Ok?)
            && (RecoverSender(u, signed).Ok? ==> RecoverSender(u, signed) == Ok(DeriveAddress(u, pk)))
  {
    hide Fits, EncodeTx, CompositeVerify, FromBytes, ValidPublic, ToBytes, DeriveAddress, HCombined,
         EntanglementNonce, ExpectedV;
    assert SignaturePreimage(SignedForm(tx, sig, ToBytes(pk))) == SignaturePreimage(tx);
    FromBytesExact(u, ToBytes(pk), pk);
    if FromBytes(u, ToBytes(pk)).Ok? {
      var other := FromBytes(u, ToBytes(pk)).value;
      FromBytesExact(u, ToBytes(pk), other);
      SizedOfValid(u, other);
      PartsOfBytes(other, pk);
    }
  }

  /**
   Sign, encode, append anything, decode, recover. Decoding gives the signed transaction and
   leaves what was appended; recovery returns the signer's address exactly when neither of the
   two Ed448 scalars is zero modulo L, for every key, transaction and chain id.
   */
  lemma SignEncodeDecodeRecover<E(!new), N(!new)>(u: Suite<E, N>, tx: Tx, key: PrivateKey, k: nat, rest: seq<byte>)
    requires LawfulSuite(u) && Matched(u, key)
    requires Fits(tx.Unsigned()) && GoodTxNonce(u, tx, key, k)
    requires SignTx(u, tx, key, k).Ok? ==> Fits(SignTx(u, tx, key, k).value)
    ensures SignTx(u, tx, key, k).Ok?
    ensures var signed := SignTx(u, tx, key, k).value;
            var msg := Ed448Message(SignatureHash(u, tx), ChainBinding(u, tx.chainId, key.public));
            && DecodeTx(EncodeTx(signed) + rest) == Parsed(Ok(signed), rest)
            && signed.Unsigned() == tx.Unsigned()
            && (RecoverSender(u, signed) == Ok(DeriveAddress(u, key.public)) <==>
                  && u.ed448Secret(key.ed448) % u.ed448.order != 0
                  && u.ed448Nonce(key.ed448, msg) % u.ed448.order != 0)
  {
    hide DecodeTx, EncodeTx, Fits, LawfulSuite, Matched, GoodNonce, CompositeSign, CompositeVerify, FromBytes,
         ValidPublic, DeriveAddress, HCombined, EntanglementNonce, Ed448Message, ExpectedV, SignaturePreimage;
    var hash, h := SignatureHash(u, tx), ChainBinding(u, tx.chainId, key.public);
    CompositeRoundTrip(u, key, hash, h, k);
    MatchedIsValid(u, key);
    var sig := CompositeSign(u, key, hash, h, k).value;
    var signed := SignedForm(tx, sig, ToBytes(key.public));
    SignedFormFacts(tx, sig, ToBytes(key.public));
    RoundTrip(signed, rest);
    RecoverOfSignedForm(u, tx, sig, key.public);
  }

  /**
   With the real L and a secret scalar clamped as in section 5.2.5 of RFC 8032: what was signed
   recovers to the signer or fails, and it fails exactly when the scalar is 4L or the nonce
   scalar is zero modulo L.
   */
  lemma ClampedSignerFails<E(!new), N(!new)>(u: Suite<E, N>, tx: Tx, key: PrivateKey, k: nat)
    requires LawfulSuite(u) && Matched(u, key)
    requires u.ed448.order == Ed448.ORDER && Ed448.Clamped(u.ed448Secret(key.ed448))
    requires Fits(tx.Unsigned()) && GoodTxNonce(u, tx, key, k)
    ensures SignTx(u, tx, key, k).Ok? && SignTx(u, tx, key, k).value.Unsigned() == tx.Unsigned()
    ensures var msg := Ed448Message(SignatureHash(u, tx), ChainBinding(u, tx.chainId, key.public));
            var recovered := RecoverSender(u, SignTx(u, tx, key, k).value);
            && (recovered.Err? <==>
                  u.ed448Secret(key.ed448) == 4 * Ed448.ORDER || u.ed448Nonce(key.ed448, msg) % Ed448.ORDER == 0)
            && (recovered.Ok? ==> recovered == Ok(DeriveAddress(u, key.public)))
  {
    hide EncodeTx, Fits, LawfulSuite, Matched, GoodNonce, CompositeSign, CompositeVerify, FromBytes, Ed448.Clamped,
         ValidPublic, DeriveAddress, HCombined, EntanglementNonce, Ed448Message, ExpectedV, SignaturePreimage;
    var hash, h := SignatureHash(u, tx), ChainBinding(u, tx.chainId, key.public);
    CompositeRoundTrip(u, key, hash, h, k);
    MatchedIsValid(u, key);
    var sig := CompositeSign(u, key, hash, h, k).value;
    SignedFormFacts(tx, sig, ToBytes(key.public));
    RecoverOfSignedForm(u, tx, sig, key.public);
    Ed448.ClampedZero(u.ed448Secret(key.ed448));
  }

  // ---- signing and recovery, written out ------------------------------------------------------

  /** The signed hash: Keccak-256 over the type byte 0x80 and the list of the eight economic fields. */
  lemma HashAsWritten<E, N>(u: Suite<E, N>, tx: Tx)
    requires Fits(tx.Unsigned())
    ensures SignatureHash(u, tx) == u.keccak([0x80] + EncodeTx(tx.Unsigned()))
  {
  }

  /** Address, chain-bound nonce and binding hash, on the bytes that are hashed. */
  lemma BindingAsWritten<E, N>(u: Suite<E, N>, chainId: u64, pk: PublicKey)
    ensures var keys := pk.dilithium + pk.p521 + pk.ed448;
            var address := u.keccak(keys)[12..32];
            var front := [101, 110, 116, 97, 110, 103, 108, 101, 1, 1] + ToFixedBE(chainId, 8);
            var nonce := u.shake(front + address, 16);
            DeriveAddress(u, pk) == address && ChainBinding(u, chainId, pk) == u.shake(keys + nonce, 32)
  {
    hide ToFixedBE;
    assert ENTANGLE + [ALGO_ID] + [VERSION] == [101, 110, 116, 97, 110, 103, 108, 101, 1, 1];
  }

  /** `verify_signature` on the bytes: key and signature parts at their offsets, and the hashed bytes. */
  lemma VerifiesAsWritten<E(!new), N(!new)>(u: Suite<E, N>, hash: Hash32, chainId: u64, keys: seq<byte>,
                                            sig: seq<byte>, sender: Address)
    ensures VerifySignature(u, hash, chainId, keys, sig) == Ok(sender) <==>
              && |keys| == 2782 && |sig| == 4873 && sender == u.keccak(keys)[12..32]
              && var front := [101, 110, 116, 97, 110, 103, 108, 101, 1, 1] + ToFixedBE(chainId, 8);
              var nonce := u.shake(front + sender, 16);
              var h := u.shake(keys + nonce, 32);
              var q := u.p521.fromSec1(keys[2592..2725]);
              && u.mlDsa.verify(keys[..2592], hash, sig[..4627])
              && q.Some? && P521.VerifySig(u.p521, q.value, hash + h + [1], sig[4627..4759]).Ok?
              && Verdict(u.ed448, u.shake, keys[2725..], hash + h + [2], sig[4759..], None).Ok?
  {
    hide FromBytes, CompositeVerify, P521.VerifySig, Verdict, ToFixedBE, Ed448.CanonicalPoint, DeriveAddress,
         ChainBinding;
    if |keys| == 2782 {
      var pk := PublicKey(keys[..2592], keys[2592..2725], keys[2725..]);
      assert keys == pk.dilithium + pk.p521 + pk.ed448;
      FromBytesAsWritten(u, keys, pk);
      BindingAsWritten(u, chainId, pk);
      var h := ChainBinding(u, chainId, pk);
      CompositeAsWritten(u, pk, hash, h, sig);
      if |sig| == 4873 {
        ErrorsAsReported(u.ed448, u.shake, pk.ed448, hash + h + [2], sig[4759..], None);
      }
      if FromBytes(u, keys).Ok? {
        FromBytesAsWritten(u, keys, FromBytes(u, keys).value);
      }
    } else if FromBytes(u, keys).Ok? {
      FromBytesAsWritten(u, keys, FromBytes(u, keys).value);
    }
  }

  /**
   Recovery on the bytes: the envelope, the three parts of the key and of the signature at their
   offsets, the hashed bytes, and the sender as the last 20 bytes of the hash of the key bytes.
   */
  lemma RecoversAsWritten<E(!new), N(!new)>(u: Suite<E, N>, tx: Tx, sender: Address)
    requires Fits(tx.Unsigned())
    ensures RecoverSender(u, tx) == Ok(sender) <==>
              && tx.pubKey.Some? && tx.pqcSignature.Some?
              && tx.v == Some(2 * tx.chainId + 35) && tx.r == Some(0) && tx.s == Some(0)
              && var keys, sig := tx.pubKey.value, tx.pqcSignature.value;
              && |keys| == 2782 && |sig| == 4873 && sender == u.keccak(keys)[12..32]
              && var hash := u.keccak([0x80] + EncodeTx(tx.Unsigned()));
              var front := [101, 110, 116, 97, 110, 103, 108, 101, 1, 1] + ToFixedBE(tx.chainId, 8);
              var nonce := u.shake(front + sender, 16);
              var h := u.shake(keys + nonce, 32);
              var q := u.p521.fromSec1(keys[2592..2725]);
              && u.mlDsa.verify(keys[..2592], hash, sig[..4627])
              && q.Some? && P521.VerifySig(u.p521, q.value, hash + h + [1], sig[4627..4759]).Ok?
              && Verdict(u.ed448, u.shake, keys[2725..], hash + h + [2], sig[4759..], None).Ok?
  {
    hide EncodeTx, Fits, ToFixedBE, VerifySignature, P521.VerifySig, Verdict, ExpectedV, SignatureHash;
    ExpectedVNeverWraps(tx.chainId, tx.chainId);
    HashAsWritten(u, tx);
    if tx.pubKey.Some? && tx.pqcSignature.Some? {
      VerifiesAsWritten(u, SignatureHash(u, tx), tx.chainId, tx.pubKey.value, tx.pqcSignature.value, sender);
    }
  }

  /**
   What signing writes, on the bytes: three signatures, of the hash, of hash and binding hash with
   the byte 1, and with the byte 2, then the key and the pinned envelope.
   */
  lemma SignsAsWritten<E, N>(u: Suite<E, N>, tx: Tx, key: PrivateKey, k: nat)
    requires Fits(tx.Unsigned()) && GoodTxNonce(u, tx, key, k)
    requires |key.dilithium| == 32 && |key.ed448| == 57 && P521Secret(u, key).Some?
    ensures var pk := key.public;
            var keys := pk.dilithium + pk.p521 + pk.ed448;
            var address := u.keccak(keys)[12..32];
            var front := [101, 110, 116, 97, 110, 103, 108, 101, 1, 1] + ToFixedBE(tx.chainId, 8);
            var nonce := u.shake(front + address, 16);
            var (hash, h) := (u.keccak([0x80] + EncodeTx(tx.Unsigned())), u.shake(keys + nonce, 32));
            var (a, r) := (u.ed448Secret(key.ed448), u.ed448Nonce(key.ed448, hash + h + [2]));
            && P521.GoodNonce(u.p521, FromBE(key.p521), k, hash + h + [1])
            && SignTx(u, tx, key, k)
               == Ok(tx.(v := Some(2 * tx.chainId + 35), r := Some(0), s := Some(0), pubKey := Some(keys),
                         pqcSignature := Some(u.mlDsa.sign(key.dilithium, hash)
                                              + P521.SignMsg(u.p521, FromBE(key.p521), k, hash + h + [1])
                                              + RfcSignature(u.ed448, u.shake, a, r, hash + h + [2], None))))
  {
    hide EncodeTx, Fits, ToFixedBE, P521.GoodNonce, P521.SignMsg, RfcSignature, FromBE, ExpectedV, SignatureHash,
         DeriveAddress, ChainBinding;
    ExpectedVNeverWraps(tx.chainId, tx.chainId);
    HashAsWritten(u, tx);
    BindingAsWritten(u, tx.chainId, key.public);
  }

  /** Which error signing and recovery report. */
  lemma SigningErrors<E(!new), N(!new)>(u: Suite<E, N>, tx: Tx, key: PrivateKey, k: nat)
    requires Fits(tx.Unsigned()) && GoodTxNonce(u, tx, key, k)
    ensures var scalar := |key.p521| == 66 && 0 < FromBE(key.p521) < u.p521.order;
            SignTx(u, tx, key, k).Err? <==> |key.dilithium| != 32 || !scalar || |key.ed448| != 57
    ensures SignTx(u, tx, key, k) == Err(CurveError) <==>
              |key.dilithium| == 32 && !(|key.p521| == 66 && 0 < FromBE(key.p521) < u.p521.order)
    ensures SignTx(u, tx, key, k).Err? ==> SignTx(u, tx, key, k).error in [SignatureError, CurveError]
  {
    hide Fits, P521.GoodNonce, P521.SignMsg, Ed448Sign, FromBE, SignatureHash, ChainBinding, ExpectedV;
  }

  lemma RecoveryErrors<E(!new), N(!new)>(u: Suite<E, N>, tx: Tx)
    requires Fits(tx.Unsigned()) && RecoverSender(u, tx).Err?
    ensures var pinned := tx.v == Some(2 * tx.chainId + 35) && tx.r == Some(0) && tx.s == Some(0);
            var e := RecoverSender(u, tx).error;
            if tx.pqcSignature.None? || tx.pubKey.None? || !pinned then e == SignatureError
            else if |tx.pubKey.value| != 2782 then e == InvalidKeySize(2782, |tx.pubKey.value|)
            else if FromBytes(u, tx.pubKey.value).Err? then e == CurveError
            else e == SignatureError
  {
    hide Fits, FromBytes, CompositeVerify, ExpectedV, SignatureHash, ChainBinding;
    ExpectedVNeverWraps(tx.chainId, tx.chainId);
    if tx.pubKey.Some? && tx.pqcSignature.Some? {
      var keys := tx.pubKey.value;
      FromBytesAsWritten(u, keys, PublicKey([], [], []));
      if FromBytes(u, keys).Ok? {
        var pk := FromBytes(u, keys).value;
        FromBytesAsWritten(u, keys, pk);
        CompositeAsWritten(u, pk, SignatureHash(u, tx), ChainBinding(u, tx.chainId, pk), tx.pqcSignature.value);
      }
    }
  }

  // ---- the Ed448 part of a composite --------------------------------------------------------

  /** What acceptance says of the Ed448 part. */
  lemma Ed448Accepted<E(!new), N(!new)>(u: Suite<E, N>, pk: PublicKey, hash: Hash32, h: seq<byte>, sig: seq<byte>)
    requires |pk.ed448| == Ed448.PUBLIC_KEY_SIZE && CompositeVerify(u, pk, hash, h, sig).Ok?
    ensures |sig| == COMPOSITE_SIG_SIZE
    ensures Verdict(u.ed448, u.shake, pk.ed448, Ed448Message(hash, h), Ed448Part(sig), None).Ok?
  {
    hide Verdict, Ed448.CanonicalPoint, P521.VerifySig, Ed448Message;
  }

  /** The transcript the Ed448 challenge of a message commits to, for the R of a signature. */
  function Ed448Transcript(shake: Xof, pk: PublicKey, msg: seq<byte>, sig: seq<byte>): seq<byte>
    requires |pk.ed448| == Ed448.PUBLIC_KEY_SIZE && |sig| == COMPOSITE_SIG_SIZE
  {
    Transcript(PartsOf(shake, pk.ed448, msg, Ed448Part(sig)[..57], None))
  }

  /** Two distinct transcripts whose 114-byte digests are congruent modulo L. */
  predicate ChallengeCollision<E, N>(u: Suite<E, N>, t1: seq<byte>, t2: seq<byte>) {
    t1 != t2 && FromLE(u.shake(t1, 114)) % u.ed448.order == FromLE(u.shake(t2, 114)) % u.ed448.order
  }

  /** One Ed448 signature accepted for two different messages exhibits a challenge collision. */
  lemma TwoVerdictsCollide<E(!new), N(!new)>(u: Suite<E, N>, pk: PublicKey, e: seq<byte>,
                                             hash1: Hash32, h1: seq<byte>, hash2: Hash32, h2: seq<byte>)
    requires Ed448.Lawful(u.ed448) && |pk.ed448| == Ed448.PUBLIC_KEY_SIZE
    requires Verdict(u.ed448, u.shake, pk.ed448, Ed448Message(hash1, h1), e, None).Ok?
    requires Verdict(u.ed448, u.shake, pk.ed448, Ed448Message(hash2, h2), e, None).Ok?
    requires hash1 != hash2 || h1 != h2
    ensures |e| == Ed448.SIGNATURE_SIZE
    ensures ChallengeCollision(u, Transcript(PartsOf(u.shake, pk.ed448, Ed448Message(hash1, h1), e[..57], None)),
                               Transcript(PartsOf(u.shake, pk.ed448, Ed448Message(hash2, h2), e[..57], None)))
  {
    hide Verdict, Ed448.Lawful, Transcript, Ed448Message;
    CurveMessagesSeparate(hash1, h1, hash2, h2);
    var m1, m2 := Ed448Message(hash1, h1), Ed448Message(hash2, h2);
    SameSignatureSameChallenge(u.ed448, u.shake, pk.ed448, e, m1, None, m2, None);
    TranscriptInjective(PartsOf(u.shake, pk.ed448, m1, e[..57], None), PartsOf(u.shake, pk.ed448, m2, e[..57], None));
  }

  /** One composite signature accepted for two different Ed448 messages exhibits a challenge collision. */
  lemma TwoMessagesCollide<E(!new), N(!new)>(u: Suite<E, N>, pk: PublicKey, sig: seq<byte>,
                                             hash1: Hash32, h1: seq<byte>, hash2: Hash32, h2: seq<byte>)
    requires Ed448.Lawful(u.ed448) && |pk.ed448| == Ed448.PUBLIC_KEY_SIZE
    requires CompositeVerify(u, pk, hash1, h1, sig).Ok? && CompositeVerify(u, pk, hash2, h2, sig).Ok?
    requires hash1 != hash2 || h1 != h2
    ensures |sig| == COMPOSITE_SIG_SIZE
    ensures ChallengeCollision(u, Ed448Transcript(u.shake, pk, Ed448Message(hash1, h1), sig),
                               Ed448Transcript(u.shake, pk, Ed448Message(hash2, h2), sig))
  {
    hide CompositeVerify, Verdict, Ed448.Lawful, Transcript, Ed448Message, Ed448Part, ChallengeCollision;
    Ed448Accepted(u, pk, hash1, h1, sig);
    Ed448Accepted(u, pk, hash2, h2, sig);
    TwoVerdictsCollide(u, pk, Ed448Part(sig), hash1, h1, hash2, h2);
  }

  // ---- splicing -----------------------------------------------------------------------------

  /** The three parts of up to three composites put together. */
  function Spliced(mlDsa: seq<byte>, p521: seq<byte>, ed448: seq<byte>): (sig: seq<byte>)
    requires |mlDsa| == |p521| == |ed448| == COMPOSITE_SIG_SIZE
    ensures |sig| == COMPOSITE_SIG_SIZE
  {
    MlDsaPart(mlDsa) + P521Part(p521) + Ed448Part(ed448)
  }

  lemma SplitAndJoin(sig: seq<byte>)
    requires |sig| == COMPOSITE_SIG_SIZE
    ensures |MlDsaPart(sig)| == MLDSA_SIG_SIZE && |P521Part(sig)| == P521.SIGNATURE_SIZE
    ensures |Ed448Part(sig)| == Ed448.SIGNATURE_SIZE
    ensures MlDsaPart(sig) + P521Part(sig) + Ed448Part(sig) == sig
  {
  }

  /** A splice verifies exactly when each part verifies for the hash and binding it is put in front of. */
  lemma SplicedAccepted<E(!new), N(!new)>(u: Suite<E, N>, pk: PublicKey, hash: Hash32, h: seq<byte>,
                                          a: seq<byte>, b: seq<byte>, c: seq<byte>)
    requires ValidPublic(u, pk) && |a| == |b| == |c| == COMPOSITE_SIG_SIZE
    ensures CompositeVerify(u, pk, hash, h, Spliced(a, b, c)).Ok? <==>
              && u.mlDsa.verify(pk.dilithium, hash, MlDsaPart(a))
              && P521.VerifySig(u.p521, u.p521.fromSec1(pk.p521).value, P521Message(hash, h), P521Part(b)).Ok?
              && Verdict(u.ed448, u.shake, pk.ed448, Ed448Message(hash, h), Ed448Part(c), None).Ok?
    ensures Spliced(a, a, a) == a
  {
    hide CompositeVerify, ValidPublic, Verdict, P521.VerifySig, Ed448Message, P521Message, MlDsaPart, P521Part,
         Ed448Part;
    SizedOfValid(u, pk);
    SplitAndJoin(a);
    SplitAndJoin(b);
    SplitAndJoin(c);
    AcceptedByAllThree(u, pk, hash, h, MlDsaPart(a), P521Part(b), Ed448Part(c));
  }

  /** Two composites accepted under one key, for two hashes and bindings. */
  ghost predicate BothAccepted<E(!new), N(!new)>(u: Suite<E, N>, pk: PublicKey,
                                                 hash1: Hash32, h1: seq<byte>, sig1: seq<byte>,
                                                 hash2: Hash32, h2: seq<byte>, sig2: seq<byte>)
  {
    && ValidPublic(u, pk) && |sig1| == |sig2| == COMPOSITE_SIG_SIZE
    && CompositeVerify(u, pk, hash1, h1, sig1).Ok? && CompositeVerify(u, pk, hash2, h2, sig2).Ok?
  }

  /**
   The Ed448 half cannot be spliced: in front of another hash or binding it is accepted only if
   that exhibits a challenge collision.
   */
  lemma Ed448HalfNotSplicible<E(!new), N(!new)>(u: Suite<E, N>, pk: PublicKey,
                                                hash1: Hash32, h1: seq<byte>, sig1: seq<byte>,
                                                hash2: Hash32, h2: seq<byte>, sig2: seq<byte>)
    requires Ed448.Lawful(u.ed448) && BothAccepted(u, pk, hash1, h1, sig1, hash2, h2, sig2)
    ensures |pk.ed448| == Ed448.PUBLIC_KEY_SIZE
    ensures CompositeVerify(u, pk, hash1, h1, Spliced(sig1, sig1, sig2)).Ok? ==>
              || (hash1 == hash2 && h1 == h2)
              || ChallengeCollision(u, Ed448Transcript(u.shake, pk, Ed448Message(hash1, h1), sig2),
                                    Ed448Transcript(u.shake, pk, Ed448Message(hash2, h2), sig2))
  {
    hide CompositeVerify, ValidPublic, Verdict, P521.VerifySig, Ed448.Lawful, Transcript, Ed448Message, P521Message,
         MlDsaPart, P521Part, Ed448Part, ChallengeCollision, Spliced;
    SizedOfValid(u, pk);
    SplicedAccepted(u, pk, hash1, h1, sig1, sig1, sig2);
    Ed448Accepted(u, pk, hash2, h2, sig2);
    if CompositeVerify(u, pk, hash1, h1, Spliced(sig1, sig1, sig2)).Ok? && (hash1 != hash2 || h1 != h2) {
      TwoVerdictsCollide(u, pk, Ed448Part(sig2), hash1, h1, hash2, h2);
    }
  }

  /** The parts of a composite that verifies, against the parts of the key. */
  lemma AcceptedParts<E(!new), N(!new)>(u: Suite<E, N>, pk: PublicKey, hash: Hash32, h: seq<byte>, sig: seq<byte>)
    returns (q: N)
    requires |pk.ed448| == Ed448.PUBLIC_KEY_SIZE && CompositeVerify(u, pk, hash, h, sig).Ok?
    ensures |sig| == COMPOSITE_SIG_SIZE && u.p521.fromSec1(pk.p521) == Some(q)
    ensures |MlDsaPart(sig)| == MLDSA_SIG_SIZE && |Ed448Part(sig)| == Ed448.SIGNATURE_SIZE
    ensures |P521Part(sig)| == P521.SIGNATURE_SIZE
    ensures MlDsaPart(sig) + P521Part(sig) + Ed448Part(sig) == sig
    ensures P521.VerifySig(u.p521, q, P521Message(hash, h), P521Part(sig)).Ok?
    ensures Verdict(u.ed448, u.shake, pk.ed448, Ed448Message(hash, h), Ed448Part(sig), None).Ok?
  {
    hide Verdict, P521.VerifySig, Ed448Message, P521Message, Ed448.CanonicalPoint, MlDsaPart, P521Part, Ed448Part;
    SplitAndJoin(sig);
    q := u.p521.fromSec1(pk.p521).value;
  }

  /**
   The P-521 half cannot be spliced either: in front of another hash or binding it is accepted
   only if the two message scalars agree modulo n, one linear condition on the key holds, or
   its r is one of the few below p - n.
   */
  lemma P521HalfNotSplicible<E(!new), N(!new)>(u: Suite<E, N>, pk: PublicKey,
                                               hash1: Hash32, h1: seq<byte>, sig1: seq<byte>,
                                               hash2: Hash32, h2: seq<byte>, sig2: seq<byte>) returns (q: N)
    requires P521.Lawful(u.p521) && BothAccepted(u, pk, hash1, h1, sig1, hash2, h2, sig2)
    ensures u.p521.fromSec1(pk.p521) == Some(q) && P521.ParseSignature(u.p521, P521Part(sig2)).Some?
    ensures CompositeVerify(u, pk, hash1, h1, Spliced(sig1, sig2, sig1)).Ok? ==>
              var (r, _) := P521.ParseSignature(u.p521, P521Part(sig2)).value;
              var z1 := u.p521.messageScalar(P521Message(hash1, h1));
              var z2 := u.p521.messageScalar(P521Message(hash2, h2));
              || z1 % u.p521.order == z2 % u.p521.order
              || P521.Commitment(u.p521, q, z1 + z2, 2 * r) == u.p521.group.zero
              || r + u.p521.order < u.p521.field
  {
    hide CompositeVerify, ValidPublic, Verdict, P521.VerifySig, P521.Lawful, Ed448Message, P521Message, MlDsaPart,
         P521Part, Ed448Part, P521.ParseSignature, P521.Commitment, Spliced;
    SizedOfValid(u, pk);
    q := AcceptedParts(u, pk, hash2, h2, sig2);
    var _ := AcceptedParts(u, pk, hash1, h1, sig1);
    SplicedAccepted(u, pk, hash1, h1, sig1, sig2, sig1);
    P521.AcceptedIsValid(u.p521, q, P521Message(hash2, h2), P521Part(sig2));
    if CompositeVerify(u, pk, hash1, h1, Spliced(sig1, sig2, sig1)).Ok? {
      P521.StringBindsMessage(u.p521, q, P521Message(hash1, h1), P521Message(hash2, h2), P521Part(sig2));
    }
  }

  /**
   The ML-DSA-87 half can be spliced: it signs the bare hash, so in front of one hash it fits
   every binding. It is accepted exactly when it verifies for that hash.
   */
  lemma MlDsaHalfSplicible<E(!new), N(!new)>(u: Suite<E, N>, pk: PublicKey,
                                             hash1: Hash32, h1: seq<byte>, sig1: seq<byte>,
                                             hash2: Hash32, h2: seq<byte>, sig2: seq<byte>)
    requires BothAccepted(u, pk, hash1, h1, sig1, hash2, h2, sig2)
    ensures |pk.ed448| == Ed448.PUBLIC_KEY_SIZE
    ensures CompositeVerify(u, pk, hash1, h1, Spliced(sig2, sig1, sig1)).Ok? <==>
              hash1 == hash2 || u.mlDsa.verify(pk.dilithium, hash1, MlDsaPart(sig2))
  {
    hide CompositeVerify, ValidPublic, Verdict, P521.VerifySig, Ed448Message, P521Message, MlDsaPart, P521Part,
         Ed448Part, Spliced;
    SizedOfValid(u, pk);
    SplicedAccepted(u, pk, hash1, h1, sig1, sig1, sig1);
    SplicedAccepted(u, pk, hash2, h2, sig2, sig2, sig2);
    SplicedAccepted(u, pk, hash1, h1, sig2, sig1, sig1);
  }

  lemma AlteredForm(tx: Tx, sig: seq<byte>, other: seq<byte>, pk: seq<byte>)
    requires tx == SignedForm(tx, sig, pk)
    ensures tx.(pqcSignature := Some(other)) == SignedForm(tx, other, pk)
  {
    hide ExpectedV;
  }

  /**
   The input on which this matters: a message equal to the preimage of a transaction. The
   ML-DSA-87 half of a signature over that message can stand in the transaction, which still
   recovers to its sender.
   */
  lemma MessageHalfInTransaction<E(!new), N(!new)>(u: Suite<E, N>, tx: Tx, mSig: seq<byte>) returns (pk: PublicKey)
    requires Fits(tx.Unsigned()) && RecoverSender(u, tx).Ok?
    ensures tx.pubKey == Some(ToBytes(pk)) && |pk.ed448| == Ed448.PUBLIC_KEY_SIZE
    ensures tx.pqcSignature.Some? && |tx.pqcSignature.value| == COMPOSITE_SIG_SIZE
    ensures VerifyMessage(u, pk, SignaturePreimage(tx), mSig) == Ok(true) ==>
              && |mSig| == COMPOSITE_SIG_SIZE
              && var sig := tx.pqcSignature.value;
              var altered := tx.(pqcSignature := Some(Spliced(mSig, sig, sig)));
              altered.Unsigned() == tx.Unsigned() && RecoverSender(u, altered) == RecoverSender(u, tx)
  {
    hide RecoverSender, CompositeVerify, ValidPublic, Fits, SignaturePreimage, ToBytes, DeriveAddress, HCombined,
         EntanglementNonce, Spliced, MlDsaPart;
    pk := RecoveredFacts(u, tx);
    var sig, hash := tx.pqcSignature.value, SignatureHash(u, tx);
    Ed448Accepted(u, pk, hash, ChainBinding(u, tx.chainId, pk), sig);
    if VerifyMessage(u, pk, SignaturePreimage(tx), mSig) == Ok(true) {
      var zero := HCombined(u, pk, ZERO_NONCE);
      Ed448Accepted(u, pk, hash, zero, mSig);
      MlDsaHalfSplicible(u, pk, hash, ChainBinding(u, tx.chainId, pk), sig, hash, zero, mSig);
      RecoverOfSignedForm(u, tx, sig, pk);
      RecoverOfSignedForm(u, tx, Spliced(mSig, sig, sig), pk);
      AlteredForm(tx, sig, Spliced(mSig, sig, sig), ToBytes(pk));
    }
  }

  // ---- two transactions, one signature ------------------------------------------------------

  /**
   Tampering is evident. If two transactions recover under one key with one signature, then they
   are the same transaction, or their preimages are a Keccak-256 collision, or their Ed448
   transcripts are a challenge collision. Replay on another chain is the case of two chain ids.
   */
  lemma TamperEvident<E(!new), N(!new)>(u: Suite<E, N>, t1: Tx, t2: Tx) returns (pk: PublicKey)
    requires Ed448.Lawful(u.ed448)
    requires Fits(t1.Unsigned()) && Fits(t2.Unsigned())
    requires RecoverSender(u, t1).Ok? && RecoverSender(u, t2).Ok?
    requires t1.pubKey == t2.pubKey && t1.pqcSignature == t2.pqcSignature
    ensures t1.pubKey == Some(ToBytes(pk)) && |pk.ed448| == Ed448.PUBLIC_KEY_SIZE
    ensures t1.pqcSignature.Some? && |t1.pqcSignature.value| == COMPOSITE_SIG_SIZE
    ensures var m1 := Ed448Message(SignatureHash(u, t1), ChainBinding(u, t1.chainId, pk));
            var m2 := Ed448Message(SignatureHash(u, t2), ChainBinding(u, t2.chainId, pk));
            || t1 == t2
            || KeccakCollision(u, SignaturePreimage(t1), SignaturePreimage(t2))
            || ChallengeCollision(u, Ed448Transcript(u.shake, pk, m1, t1.pqcSignature.value),
                                  Ed448Transcript(u.shake, pk, m2, t2.pqcSignature.value))
  {
    hide RecoverSender, CompositeVerify, ValidPublic, Fits, Ed448.Lawful, SignaturePreimage, ToBytes, ChainBinding,
         Ed448Message, Ed448Transcript, ChallengeCollision;
    pk := RecoveredFacts(u, t1);
    var pk2 := RecoveredFacts(u, t2);
    PartsOfBytes(pk, pk2);
    var sig := t1.pqcSignature.value;
    var hash1, hash2 := SignatureHash(u, t1), SignatureHash(u, t2);
    Ed448Accepted(u, pk, hash1, ChainBinding(u, t1.chainId, pk), sig);
    if hash1 != hash2 {
      TwoMessagesCollide(u, pk, sig, hash1, ChainBinding(u, t1.chainId, pk), hash2, ChainBinding(u, t2.chainId, pk));
    } else {
      EqualHashes(u, t1, t2);
    }
  }

  /**
   The same on the wire, with nothing said of the fields: two byte strings read as signed
   transactions with one key and one signature are the same bytes, or exhibit a collision.
   */
  lemma WireTamperEvident<E(!new), N(!new)>(u: Suite<E, N>, b1: seq<byte>, b2: seq<byte>) returns (pk: PublicKey)
    requires Ed448.Lawful(u.ed448)
    requires ReadSigned(u, b1).Some? && ReadSigned(u, b2).Some?
    requires var t1, t2 := ReadSigned(u, b1).value.0, ReadSigned(u, b2).value.0;
             t1.pqcSignature == t2.pqcSignature && t1.pubKey == t2.pubKey
    ensures var t1 := ReadSigned(u, b1).value.0;
            t1.pubKey == Some(ToBytes(pk)) && |pk.ed448| == Ed448.PUBLIC_KEY_SIZE
            && t1.pqcSignature.Some? && |t1.pqcSignature.value| == COMPOSITE_SIG_SIZE
    ensures var t1, t2 := ReadSigned(u, b1).value.0, ReadSigned(u, b2).value.0;
            var m1 := Ed448Message(SignatureHash(u, t1), ChainBinding(u, t1.chainId, pk));
            var m2 := Ed448Message(SignatureHash(u, t2), ChainBinding(u, t2.chainId, pk));
            var sig := t1.pqcSignature.value;
            || b1 == b2
            || KeccakCollision(u, SignaturePreimage(t1), SignaturePreimage(t2))
            || ChallengeCollision(u, Ed448Transcript(u.shake, pk, m1, sig), Ed448Transcript(u.shake, pk, m2, sig))
  {
    hide ReadSigned, DecodeTx, RecoverSender, Fits, Ed448.Lawful, SignaturePreimage, ToBytes, ChainBinding,
         Ed448Message, Ed448Transcript, ChallengeCollision;
    var t1, t2 := ReadSigned(u, b1).value.0, ReadSigned(u, b2).value.0;
    pk := TamperEvident(u, t1, t2);
    if t1 == t2 {
      SignedWireFormUnique(u, b1, b2);
    }
  }

  /** Two distinct inputs whose Keccak-256 digests agree on the 20 bytes of an address. */
  predicate AddressCollision<E, N>(u: Suite<E, N>, x: seq<byte>, y: seq<byte>) {
    x != y && u.keccak(x)[12..32] == u.keccak(y)[12..32]
  }

  /** One sender means one public key, or two serialised keys that collide in the address bytes. */
  lemma SenderDeterminesKey<E(!new), N(!new)>(u: Suite<E, N>, t1: Tx, t2: Tx)
    requires Fits(t1.Unsigned()) && Fits(t2.Unsigned())
    requires RecoverSender(u, t1).Ok? && RecoverSender(u, t2).Ok?
    ensures t1.pubKey.Some? && t2.pubKey.Some?
    ensures RecoverSender(u, t1) == RecoverSender(u, t2) <==>
              t1.pubKey == t2.pubKey || AddressCollision(u, t1.pubKey.value, t2.pubKey.value)
  {
    hide RecoverSender, CompositeVerify, ValidPublic, Fits, ToBytes, SignaturePreimage, ChainBinding, ExpectedV;
    var pk1 := RecoveredFacts(u, t1);
    var pk2 := RecoveredFacts(u, t2);
  }

  // ---- malleability -------------------------------------------------------------------------

  /** The composite with its P-521 half replaced by the (r, n - s) twin. */
  function WithP521Twin<E, N>(u: Suite<E, N>, sig: seq<byte>): seq<byte>
    requires |sig| == COMPOSITE_SIG_SIZE && P521.ParseSignature(u.p521, P521Part(sig)).Some?
  {
    MlDsaPart(sig) + P521.Twin(u.p521, P521Part(sig)) + Ed448Part(sig)
  }

  /** The composite with the s half of its P-521 part replaced. */
  function WithP521S(sig: seq<byte>, s: seq<byte>): seq<byte>
    requires |sig| == COMPOSITE_SIG_SIZE && |s| == 66
  {
    MlDsaPart(sig) + (P521Part(sig)[..66] + s) + Ed448Part(sig)
  }

  /** The composite with the S half of its Ed448 part replaced. */
  function WithEd448S(sig: seq<byte>, s: seq<byte>): seq<byte>
    requires |sig| == COMPOSITE_SIG_SIZE && |s| == 57
  {
    MlDsaPart(sig) + P521Part(sig) + (Ed448Part(sig)[..57] + s)
  }

  /** The P-521 half cannot become its twin, and the Ed448 half cannot take another S. */
  lemma NotMalleable<E(!new), N(!new)>(u: Suite<E, N>, pk: PublicKey, hash: Hash32, h: seq<byte>,
                                       sig: seq<byte>, s: seq<byte>)
    requires Ed448.Lawful(u.ed448) && P521.Lawful(u.p521)
    requires |pk.ed448| == Ed448.PUBLIC_KEY_SIZE && |s| == 57
    requires CompositeVerify(u, pk, hash, h, sig).Ok?
    ensures |sig| == COMPOSITE_SIG_SIZE && P521.ParseSignature(u.p521, P521Part(sig)).Some?
    ensures WithP521Twin(u, sig) != sig && CompositeVerify(u, pk, hash, h, WithP521Twin(u, sig)).Err?
    ensures CompositeVerify(u, pk, hash, h, WithEd448S(sig, s)).Ok? <==> WithEd448S(sig, s) == sig
  {
    hide CompositeVerify, Verdict, Ed448.Lawful, P521.Lawful, P521.VerifySig, P521.ParseSignature, P521.Twin,
         Ed448Message, P521Message, MlDsaPart, P521Part, Ed448Part;
    var q := AcceptedParts(u, pk, hash, h, sig);
    P521.TwinRejected(u.p521, q, P521Message(hash, h), P521Part(sig));
    PartsOfComposite(MlDsaPart(sig), P521.Twin(u.p521, P521Part(sig)), Ed448Part(sig));
    if CompositeVerify(u, pk, hash, h, WithP521Twin(u, sig)).Ok? {
      var _ := AcceptedParts(u, pk, hash, h, WithP521Twin(u, sig));
      assert false;
    }
    var e, e' := Ed448Part(sig), Ed448Part(sig)[..57] + s;
    PartsOfComposite(MlDsaPart(sig), P521Part(sig), e');
    assert e'[..57] == e[..57];
    if CompositeVerify(u, pk, hash, h, WithEd448S(sig, s)).Ok? {
      var _ := AcceptedParts(u, pk, hash, h, WithEd448S(sig, s));
      AtMostOneS(u.ed448, u.shake, pk.ed448, Ed448Message(hash, h), e, e', None);
    }
  }

  /**
   The P-521 half cannot take another s either, unless its r is below p - n and the verifier
   meets another x-coordinate.
   */
  lemma P521HalfNotMalleable<E(!new), N(!new)>(u: Suite<E, N>, pk: PublicKey, hash: Hash32, h: seq<byte>,
                                               sig: seq<byte>, s: seq<byte>) returns (q: N)
    requires P521.Lawful(u.p521) && |pk.ed448| == Ed448.PUBLIC_KEY_SIZE && |s| == 66
    requires CompositeVerify(u, pk, hash, h, sig).Ok?
    ensures |sig| == COMPOSITE_SIG_SIZE && |WithP521S(sig, s)| == COMPOSITE_SIG_SIZE
    ensures u.p521.fromSec1(pk.p521) == Some(q)
    ensures P521.ParseSignature(u.p521, P521Part(sig)).Some?
    ensures CompositeVerify(u, pk, hash, h, WithP521S(sig, s)).Ok? ==>
              && P521.ParseSignature(u.p521, P521Part(WithP521S(sig, s))).Some?
              && (|| WithP521S(sig, s) == sig
                  || (&& P521.SignatureX(u.p521, q, P521Message(hash, h), P521Part(sig))
                         != P521.SignatureX(u.p521, q, P521Message(hash, h), P521Part(WithP521S(sig, s)))
                      && P521.ParseSignature(u.p521, P521Part(sig)).value.0 + u.p521.order < u.p521.field))
  {
    hide CompositeVerify, Verdict, P521.Lawful, P521.VerifySig, P521.ParseSignature, Ed448Message,
         P521Message, MlDsaPart, P521Part, Ed448Part, P521.SignatureX;
    q := AcceptedParts(u, pk, hash, h, sig);
    var part, other := P521Part(sig), P521Part(sig)[..66] + s;
    PartsOfComposite(MlDsaPart(sig), other, Ed448Part(sig));
    P521.TwinRejected(u.p521, q, P521Message(hash, h), part);
    if CompositeVerify(u, pk, hash, h, WithP521S(sig, s)).Ok? {
      var _ := AcceptedParts(u, pk, hash, h, WithP521S(sig, s));
      assert other[..66] == part[..66];
      P521.AtMostOneS(u.p521, q, P521Message(hash, h), part, other);
    }
  }

  /**
   Message signatures are no transaction signatures. A composite accepted both for a general
   message and by recovery means that the chain nonce is the zero nonce, or an explicit
   SHAKE-256 collision, or a challenge collision.
   */
  lemma MessagesAreNotTransactions<E(!new), N(!new)>(u: Suite<E, N>, tx: Tx, message: seq<byte>) returns (pk: PublicKey)
    requires Ed448.Lawful(u.ed448) && Fits(tx.Unsigned()) && RecoverSender(u, tx).Ok?
    ensures tx.pubKey == Some(ToBytes(pk)) && |pk.ed448| == Ed448.PUBLIC_KEY_SIZE && Sized(pk)
    ensures tx.pqcSignature.Some? && |tx.pqcSignature.value| == COMPOSITE_SIG_SIZE
    ensures var nonce := EntanglementNonce(u, tx.chainId, DeriveAddress(u, pk));
            var m1 := Ed448Message(SignatureHash(u, tx), HCombined(u, pk, nonce));
            var m2 := Ed448Message(u.keccak(message), HCombined(u, pk, ZERO_NONCE));
            var sig := tx.pqcSignature.value;
            VerifyMessage(u, pk, message, sig) == Ok(true) ==>
              || nonce == ZERO_NONCE
              || ShakeCollision(u, 32, ToBytes(pk) + nonce, ToBytes(pk) + ZERO_NONCE)
              || ChallengeCollision(u, Ed448Transcript(u.shake, pk, m1, sig), Ed448Transcript(u.shake, pk, m2, sig))
  {
    hide RecoverSender, CompositeVerify, ValidPublic, Fits, Ed448.Lawful, SignaturePreimage, ToBytes, DeriveAddress,
         EntanglementNonce, Ed448Message, Ed448Transcript, ChallengeCollision;
    pk := RecoveredFacts(u, tx);
    var sig := tx.pqcSignature.value;
    var nonce := EntanglementNonce(u, tx.chainId, DeriveAddress(u, pk));
    var h1, h2 := HCombined(u, pk, nonce), HCombined(u, pk, ZERO_NONCE);
    Ed448Accepted(u, pk, SignatureHash(u, tx), h1, sig);
    BindingPreimageInjective(pk, nonce, pk, ZERO_NONCE);
    if VerifyMessage(u, pk, message, sig) == Ok(true) && h1 != h2 {
      TwoMessagesCollide(u, pk, sig, SignatureHash(u, tx), h1, u.keccak(message), h2);
    }
  }
}
