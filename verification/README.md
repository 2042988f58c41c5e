# BlackChain transaction cryptography: a verified model

A Dafny model of the parts of the BlackChain cryptographic library where bytes, hashes and curve
equations meet, with proofs of what that code is for.

* **The transaction wire codec** writes a transaction as an RLP list and reads it back through a
  cursor bounded to the declared payload. The model proves what survives the trip, which byte strings
  are accepted, and where the encoding is not canonical (`Rlp`, `Transaction`, `TransactionCodec`).
* **The hand-written Ed448 decoder and verifier** compares a coordinate with the field prime byte by
  byte, reduces a 114-byte digest modulo the group order and evaluates a cofactored equation behind a
  torsion guard. The model proves exactly what is decoded and accepted (`Ed448`, `Ed448Signature`,
  `Ed448Verifier`).
* **P-521 ECDSA in low-S form** and the derivation of its scalars (`P521`, `P521Derivation`).
* **The composite key and its signatures**, for messages and for transactions, and recovery of the
  sender (`CompositeKey`, `KeyGeneration`, `Signing`).
* **The hardened derivation-path parser** and child-seed derivation (`PathText`, `HdDerivation`).

`Bytes`, `Modular`, `Groups`, `Hashing` and `Outcomes` hold the arithmetic, the group lemmas, the
incremental hasher and the result types. `Consistency` shows that the laws assumed of the libraries can
be met together.

## How it is modelled

Code that updates a buffer, a cursor, a hasher or the fields of a transaction is a class with those
fields or a method with the loop; each such method is tied to a function, and the theorems are about
the functions. Errors are `Result` values with the error kinds of the source and without the texts.

For each operation a lemma says in literal bytes, offsets and constants what it hashes, signs, writes
or accepts (`EncodedAsWritten`, `AcceptedAsInRfc`, `AcceptedAsInSec1`, `RecoversAsWritten`,
`SignsAsWritten`, `GeneratedParts`, `ParsedAlphabet` and others), independently of the functions the
other theorems are stated with.

Library code is represented by records of functions with laws:

* `alloy_rlp` is written out concretely in `Rlp` from Appendix B of the Ethereum Yellow Paper with the
  canonical checks. This is an assumption about a library whose source is not part of this model.
* `Ed448.Curve` is a commutative group with affine coordinates in which `[4L]P = O` for every point,
  the points killed by L are the multiples of the base point, which has order L, and `decompress` obeys
  a contract on y and on the parity of x. `P521.Curve` is a group of order n in which x, a field element,
  determines a point up to its sign. The orders and the P-521 field prime are parameters constrained to
  what the proofs use; `Ed448.OrderConstant` and `P521.OrderConstant` show that the real constants
  qualify, the primality of the orders being taken from RFC 8032 and FIPS 186-4.
* Keccak-256, SHAKE-256, SHA-512, HKDF, BIP-32 and ML-DSA-87 are uninterpreted, with output lengths and
  (ML-DSA-87) the law that a signature verifies. No hash is assumed to be injective: results about
  tampering end in equality of the inputs or in an explicit collision.
* The Ed448 signer is assumed to compute the signature of section 5.2.6 of RFC 8032 from a secret
  scalar and a nonce scalar; those two numbers are parameters. The random P-521 nonce is a parameter
  too, one for which neither r nor s is zero, since the library draws again otherwise.

`usize` is 64 bits wide: `Transaction.Fits` says that no length reaches 2^64, which is also the limit of
an RLP header. Sequences otherwise have no bound.

## Where the code differs from its documentation

* Every accepted string should be canonical, but the decoder still accepts the twelve-item list
  without `pub_key`. `Transaction.CanonicalExactly` gives the exact condition and
  `Transaction.LegacyFormDiffers` the family of exceptions.
* Signing and then recovering should always give the signer. It does exactly when the Ed448 secret
  scalar and nonce scalar are not zero modulo L (`Signing.SignEncodeDecodeRecover`). For a secret scalar
  clamped as in section 5.2.5 of RFC 8032 the first condition excludes the one value 4L
  (`Ed448.ClampedZero`, `Signing.ClampedSignerFails`); `Consistency.RecoveryCanFail` has a key on which
  signing succeeds and recovery fails.
* The binding hash should prevent splicing across the three schemes (src/crypto.rs:359 and the
  repository's README, line 101). ML-DSA-87 signs the bare hash, so its half fits every binding of that
  hash (`Signing.MlDsaHalfSplicible`): the half of a signature over the message 0x80 followed by the RLP
  of the unsigned transaction serves the transaction itself (`Signing.MessageHalfInTransaction`). The
  other two halves are bound (`Signing.Ed448HalfNotSplicible`, `Signing.P521HalfNotSplicible`).
* A derivation path may start with an optional `m/`; the code removes any number of them
  (`PathText.PrefixIgnored`) and also accepts a plus sign and several hardening suffixes
  (`PathText.ParsesExactly`).
* src/transaction/types.rs:11 gives P-521 signatures at most 139 bytes; they have 132
  (src/mdecc/p521.rs:36), which the model uses. The nonce formula at src/transaction/signing.rs:7
  omits the chain id that the code hashes.

## Model

| member | source | states |
|---|---|---|
| Rlp.FieldsRoundTrip | src/transaction/rlp.rs:113-130 | Any list of strings that pass their field checks is read back from its concatenated encodings, and the cursor stops right behind them. |
| Rlp.FieldsCanonical | src/transaction/rlp.rs:101-111 | Whatever a list of fields is read from is the canonical encoding of the strings it gave, followed by what is left. |
| Transaction.RoundTrip | src/transaction/rlp.rs:56-173 | For every transaction and every suffix, decoding the encoding gives the normal form and leaves exactly the suffix. |
| Transaction.LegacyRoundTrip | src/transaction/rlp.rs:143-150 | The twelve-item list of a signed transaction decodes to its normal form without a public key. |
| Transaction.AcceptedExactly | src/transaction/rlp.rs:96-173 | The decoder succeeds with a transaction and a rest if and only if the transaction is normal and the input is its current or legacy wire form followed by the rest. |
| Transaction.SameEncoding | src/transaction/rlp.rs:56-87 | Two transactions have the same encoding if and only if their normal forms are equal. |
| Transaction.SelfDelimiting | src/transaction/rlp.rs:101-111 | Two encodings followed by anything are equal only if the encodings and what follows are equal: trailing bytes never become fields. |
| Transaction.CanonicalExactly | src/transaction/rlp.rs:138-156 | Re-encoding an accepted input gives it back if and only if its payload does not consist of twelve items; the re-encoding always decodes to the same transaction and rest. |
| Transaction.LegacyFormDiffers | src/transaction/rlp.rs:143-149 | Every signed normal transaction without a public key has two different wire forms that decode to it. |
| Transaction.TrailingRejected | src/transaction/rlp.rs:152-156 | Any bytes behind the thirteenth item inside the declared payload make the decoder fail as trailing, with the cursor right behind the header. |
| Transaction.TrailingExactly | src/transaction/rlp.rs:152-156 | The decoder fails as trailing if and only if the input is a list whose payload is the thirteen items of a signed transaction and at least one more byte. |
| Transaction.StringRefused | src/transaction/rlp.rs:97-100 | A string in place of the list is refused as unexpected. |
| Transaction.ShortListRefused | src/transaction/rlp.rs:106-108 | A list that declares more bytes than there are is refused as too short, with the cursor behind the header. |
| Transaction.RecipientRefused | src/transaction/rlp.rs:119-127 | A recipient of neither 0 nor 20 bytes behind five integers is refused for its length, whatever follows. |
| Rlp.IntegerRefused | src/transaction/rlp.rs:113-117 | An integer item that was written is refused if and only if it is too wide or starts with a zero byte, and with which error. |
| Transaction.EncodedAsWritten | src/transaction/rlp.rs:56-87 | The encoding is a list header and the items in this order: chain id, nonce, the two fees, gas limit, recipient, value, data, and, if v or the signature is present, v, r, s, signature, key. |
| Transaction.DecodedAsWritten | src/transaction/rlp.rs:113-173 | What decoding an encoding gives, field by field. |
| Transaction.ExampleEncoding | src/transaction/rlp.rs:56-87 | A signed transaction and its unsigned copy as explicit bytes. |
| Transaction.DecodedUnsignedFits | src/transaction/signing.rs:91-117 | The unsigned copy of every decoded transaction can be encoded, so recovery can always take its hash. |
| Rlp.HeaderAsWritten | src/transaction/rlp.rs:56-59 | Header bytes are 0x80 or 0xC0 plus a length below 56, else 0xB7 or 0xF7 plus the length of the length, which follows. |
| Rlp.UintLengthAgrees | src/transaction/rlp.rs:23-32 | The length rule for integers is the length of what is written, across the one-byte and zero cases. |
| TransactionCodec.RlpPayloadLength | src/transaction/rlp.rs:21-52 | The accumulated length is the length of the concatenated items that are written. |
| TransactionCodec.Length | src/transaction/rlp.rs:89-92 | The announced length is the number of bytes encoding writes. |
| TransactionCodec.Encode | src/transaction/rlp.rs:56-87 | Appends the encoding to the buffer and leaves what was there. |
| TransactionCodec.Decode | src/transaction/rlp.rs:96-173 | Result and cursor are those of the decoding function, on success and on every failure. |
| Ed448.FieldPrimeValue | src/mdecc/ed448.rs:60-66 | The byte constant is 2^448 - 2^224 - 1 in little-endian form. |
| Ed448.DecodesExactly | src/mdecc/ed448.rs:89-127 | A string decodes to a point if and only if it is the RFC 8032 encoding of that point and the point is not of small order. |
| Ed448.DecodesAsWritten | src/mdecc/ed448.rs:89-127 | A string decodes to P if and only if it is y in 56 little-endian bytes and the parity of x in the top bit, and [4]P is not O. |
| Ed448.DecodingInjective | src/mdecc/ed448.rs:89-127 | Two accepted strings that decode to one point are equal. |
| Ed448Verifier.DecodeCanonicalPoint | src/mdecc/ed448.rs:89-127 | The comparison loop with its early exits decides y < p, and the whole decoder computes the decoding function. |
| Ed448.EquationIsRfc | src/mdecc/ed448.rs:342-350 | The equation as evaluated is the equation of section 5.2.7 of RFC 8032. |
| Ed448.ChallengeUnique | src/mdecc/ed448.rs:118-124 | Under a key that is not of small order, if (S, R) fits one challenge it fits exactly the challenges congruent to it modulo L. |
| Ed448.SmallOrderIgnoresChallenge | src/mdecc/ed448.rs:80-88 | Under a key of small order the equation does not depend on the challenge. |
| Ed448.SmallOrderForgery | src/mdecc/ed448.rs:80-88 | Under a key of small order S = 1 and R = B satisfy the equation for every challenge, although both pass their own checks. |
| Ed448.TorsionGuardExact | src/mdecc/ed448.rs:80-88 | Among the S and R the verifier lets through, a key binds the challenge if and only if the torsion guard lets the key through. |
| Ed448.TorsionInvisible | src/mdecc/ed448.rs:342-350 | Adding a point of small order to the key or to R leaves the equation as it was, for every S and fixed challenge. |
| Ed448.ClampedZero | src/mdecc/ed448.rs:118-124 | Of the clamped secret scalars of section 5.2.5 of RFC 8032 exactly one, 4L, is zero modulo L, and so meets the guard on its own public key. |
| Ed448.ReducedChallenge | src/mdecc/ed448.rs:334-340 | Reducing the challenge modulo L never changes the verdict, for any points. |
| Ed448.ExactlyOneScalar | src/mdecc/ed448.rs:288-350 | Every key, R and challenge, torsion included, has exactly one S below L that satisfies the equation. |
| Ed448.EquationInSubgroup | src/mdecc/ed448.rs:342-350 | For A = [a]B and R = [r]B the equation holds if and only if S = r + k a modulo L. |
| Ed448Signature.ScalarExactly | src/mdecc/ed448.rs:288-295 | A 57-byte S is accepted as n if and only if n < L and the bytes are its little-endian form; the bit checks follow from that. |
| Ed448Signature.OptionsMergeOnlyEmpty | src/mdecc/ed448.rs:140-153 | Options map to the same mode and context only if they are equal or are None and the empty context. |
| Ed448Signature.TranscriptParses | src/mdecc/ed448.rs:299-329 | Mode, context, R, A and body are read back from the transcript bytes. |
| Ed448Signature.TranscriptInjective | src/mdecc/ed448.rs:299-329 | Two transcripts are equal if and only if all their parts are. |
| Ed448Signature.HashedBytes | src/mdecc/ed448.rs:299-329 | The hashed string byte by byte: "SigEd448", flag, context length, context, R, A and message or 64-byte prehash, for no options, the prehash sentinel and any other context. |
| Ed448Signature.AcceptedAsInRfc | src/mdecc/ed448.rs:260-357 | Acceptance is that of section 5.2.7 of RFC 8032: R and A decode, S < L, and [4][S]B = [4]R + [4][k]A for the unreduced digest of the written-out bytes. |
| Ed448Signature.ErrorsAsReported | src/mdecc/ed448.rs:223-357 | Which error is reported for a wrong length, a bad key, a context above 255 bytes, and anything else. |
| Ed448Signature.AtMostOneS | src/mdecc/ed448.rs:288-295 | For fixed key, message, options and R at most one signature is accepted. |
| Ed448Signature.ExactlyOneS | src/mdecc/ed448.rs:260-357 | For every key and R that decode, every message and every context of at most 255 bytes, exactly one 57-byte string completes a signature that is accepted. |
| Ed448Signature.SameSignatureSameChallenge | src/mdecc/ed448.rs:317-356 | A signature accepted for two messages or options has the same challenge modulo L in both. |
| Ed448Signature.AcceptedInSubgroup | src/mdecc/ed448.rs:260-357 | For a key [a]B and R = [r]B and any reduced S, the verifier accepts if and only if neither a nor r is zero modulo L and S = r + k a modulo L, k being the digest of the bytes written out. |
| Ed448Signature.RfcSignatureBytes | src/mdecc/ed448.rs:299-340 | The RFC 8032 signature the theorems speak of is R and (r + k a) mod L, k being the digest of the bytes written out. |
| Ed448Signature.RfcSignatureAccepted | src/mdecc/ed448.rs:260-357 | An RFC 8032 signature verifies if and only if neither scalar is zero modulo L. |
| Ed448Signature.AcceptedKey | src/mdecc/ed448.rs:80-88 | The encoding of [n]B decodes to [n]B if L does not divide n and is rejected otherwise. |
| Ed448Verifier.ReduceDigest | src/mdecc/ed448.rs:334-340 | The loop over the reversed bytes computes the little-endian value modulo L, for every byte string. |
| Ed448Verifier.VerifyViaGoldilocks | src/mdecc/ed448.rs:260-357 | Decoding, hashing and equation together compute the verdict function, error kinds included. |
| Ed448Verifier.VerifySig | src/mdecc/ed448.rs:223-253 | The length check and the options in front of it, for a key read from bytes. |
| P521.ParsesExactly | src/mdecc/p521.rs:64-66 | A 132-byte string parses to (r, s) if and only if both are in [1, n-1] and it is their fixed-width form. |
| P521.NegationInvariant | src/mdecc/p521.rs:59-63 | Plain ECDSA verification gives the same answer for s and n - s. |
| P521.AcceptedExactly | src/mdecc/p521.rs:64-76 | The form of (r, s) is accepted if and only if 2 s < n and the pair is valid. |
| P521.AcceptedBytes | src/mdecc/p521.rs:64-76 | Every accepted string has 132 bytes, r in [1, n-1] in the first half and s with 0 < 2 s < n in the second. |
| P521.OnlySignatureErrors | src/mdecc/p521.rs:64-76 | A refused signature is always reported as a signature error. |
| P521.AcceptedAsInSec1 | src/mdecc/p521.rs:64-76 | Acceptance is that of section 4.1.4 of SEC 1, for any inverse w of s, with the lower half added. |
| P521.ExactlyOneTwin | src/mdecc/p521.rs:64-76 | Of the two forms of a valid pair exactly one is accepted. |
| P521.TwinRejected | src/mdecc/p521.rs:64-76 | The twin of an accepted signature is a different string and is rejected. |
| P521.LowSUnique | src/mdecc/p521.rs:59-76 | For fixed key, message and r, two valid low s are equal if and only if the verifier computes the same x-coordinate for both. |
| P521.OnlyLowS | src/mdecc/p521.rs:59-76 | For fixed key, message and r with r + n at least the field prime, two valid low s are equal. |
| P521.AtMostTwoLowS | src/mdecc/p521.rs:59-76 | For any r, of three valid low s two are equal. |
| P521.AtMostOneS | src/mdecc/p521.rs:64-76 | Two accepted strings with the same r half are equal if and only if they give the same x-coordinate, and differ only if r + n is below the field prime. |
| P521.TwoMessagesOneX | src/mdecc/p521.rs:73-76 | When one (r, s) is valid for two messages, the verifier meets one x-coordinate if and only if the message scalars agree modulo n or [z1 + z2]G + [2r]Q = O. |
| P521.SignatureBindsMessage | src/mdecc/p521.rs:73-76 | One (r, s) with r + n at least the field prime is valid for two messages only in these two cases. |
| P521.SignedBytes | src/mdecc/p521.rs:187-193 | In everything signing emits, r is the x-coordinate of [k]G modulo n, 0 < 2 s < n, and s or n - s solves k s = z + r d modulo n. |
| P521.SignMsgAccepted | src/mdecc/p521.rs:187-193 | Everything signing emits is accepted under the matching public key, for every secret, message and nonce the library keeps. |
| P521Derivation.PaddedDigest | src/mdecc/p521.rs:286-303 | A 64-byte digest behind two zero bytes keeps its value, lies below n, and is a valid secret unless it is zero. |
| P521Derivation.FirstScalarExact | src/mdecc/p521.rs:293-310 | The scalar is that of the first counter with a nonzero digest, and there is none if and only if all 256 digests are zero. |
| P521Derivation.FirstScalarBytes | src/mdecc/p521.rs:293-298 | The hashed bytes are "blackchain-p521-derive-v1", the seed and one counter byte, from zero. |
| P521Derivation.DeriveKeypairFromSeed | src/mdecc/p521.rs:279-311 | The byte-counter loop ends without wrapping, returns the first nonzero scalar in [1, 2^512) with its point, and panics exactly on a bad seed size or 256 zero digests. |
| CompositeKey.FromBytesExact | src/crypto.rs:91-123 | Bytes parse to a key if and only if they are its serialisation and its parts are valid: both round trips. |
| CompositeKey.FromBytesAsWritten | src/crypto.rs:99-123 | The key parts are bytes 0 to 2592, 2592 to 2725 and 2725 to 2782, and which error other bytes give. |
| CompositeKey.CompositeAsWritten | src/crypto.rs:156-200 | A composite is accepted if and only if bytes 0 to 4627, 4627 to 4759 and 4759 to 4873 are signatures of the hash, of hash, binding hash and 1, and of hash, binding hash and 2. |
| CompositeKey.MatchedIsValid | src/crypto.rs:99-123 | The public key of a matched key pair passes parsing if and only if its Ed448 scalar is not zero modulo L. |
| CompositeKey.CompositeRoundTrip | src/crypto.rs:363-400 | A composite signature of a matched key verifies if and only if neither Ed448 scalar is zero modulo L. |
| CompositeKey.CurveMessagesSeparate | src/transaction/signing.rs:267-277 | The curve messages determine hash and binding hash, and no message serves both curves. |
| KeyGeneration.Generate | src/crypto.rs:276-325 | Generation step by step gives the keys that belong to the seed it stores, refuses short seeds, and panics only with the P-521 loop. |
| KeyGeneration.GeneratedParts | src/crypto.rs:284-324 | Every part of a generated key from the seed bytes: the ML-DSA-87 seed, SHAKE-256 and HKDF over bytes 32 to 64 and the curve id, the P-521 scalar, and the public keys. |
| KeyGeneration.NotGenerated | src/crypto.rs:284-300 | Generation of 64 bytes or more panics or fails only if all P-521 digests are zero or HKDF refuses a length. |
| KeyGeneration.GeneratedIsMatched | src/crypto.rs:302-324 | Every generated key consists of matching secret and public parts. |
| KeyGeneration.OnlyFirst64Bytes | src/crypto.rs:276-299 | Seeds that agree on 64 bytes give the same keys, errors and panics; only the stored seed differs. |
| KeyGeneration.DerivePublicKey | src/crypto.rs:331-353 | The second derivation, from the stored seed and step by step, gives the cached public key of every generated key; on other keys it gives the public key, error or panic of the stored seed, and a panic if that is shorter than 64 bytes. |
| KeyGeneration.SignMessage | src/crypto.rs:363-400 | The assembled composite is the composite signature of the message hash under the zero nonce, error kinds included. |
| KeyGeneration.MessageSignatureBytes | src/crypto.rs:363-400 | The three signatures of a message and the bytes each of them signs. |
| KeyGeneration.MessageAcceptedAsWritten | src/crypto.rs:146-200 | A message signature is accepted if and only if its three parts verify for the written-out bytes. |
| KeyGeneration.GeneratedKeySigns | src/crypto.rs:363-400 | A generated key verifies its own message signatures if and only if neither Ed448 scalar is zero modulo L. |
| Signing.ComputeEntanglementNonce | src/transaction/signing.rs:60-70 | The hasher fed step by step gives the chain-bound nonce. |
| Signing.ComputeHCombined | src/transaction/signing.rs:74-83 | The hasher fed step by step gives the binding hash. |
| Signing.TransactionCell.SignTransaction | src/transaction/signing.rs:129-181 | Signing in place writes exactly the five signature fields, changes nothing on failure, and keeps the signature hash. |
| Signing.PreimageInjective | src/transaction/signing.rs:91-117 | The hashed bytes of two transactions are equal if and only if their eight economic fields are. |
| Signing.EqualHashes | src/transaction/signing.rs:91-117 | Equal signature hashes mean equal economic fields or an explicit Keccak-256 collision, and conversely. |
| Signing.NoncePreimageInjective | src/transaction/signing.rs:60-70 | The nonce preimage determines chain id and address. |
| Signing.BindingPreimageInjective | src/transaction/signing.rs:74-83 | The binding preimage determines the key and the nonce. |
| Signing.BindingDetermines | src/transaction/signing.rs:60-83 | Equal binding hashes mean one key on one chain, or an explicit SHAKE-256 collision at 32 or 16 bytes. |
| Signing.ExpectedVNeverWraps | src/transaction/signing.rs:210 | The placeholder v is 2 chain_id + 35 without wrap-around in 256 bits, and determines the chain id. |
| Signing.ReadsExactly | src/transaction/signing.rs:193-220 | A byte string decodes completely to a transaction that recovers to a sender if and only if it is the current encoding of a transaction that does: the legacy form drops out. |
| Signing.SignedWireFormUnique | src/transaction/signing.rs:201-220 | Byte strings read as signed transactions (decoded, fully consumed, sender recovered) that agree on economic fields, signature and key are identical. |
| Signing.RecoversAsWritten | src/transaction/signing.rs:193-286 | Recovery on the bytes: the pinned envelope, the offsets of key and signature parts, the hashed preimages of hash, nonce and binding hash, and the sender as bytes 12 to 32 of the hash of the key bytes. |
| Signing.SignsAsWritten | src/transaction/signing.rs:129-181 | What signing writes: three signatures of the written-out bytes, the key bytes and the envelope. |
| Signing.SigningErrors | src/transaction/signing.rs:143-166 | Signing fails exactly on a secret part of the wrong form, and with which error. |
| Signing.RecoveryErrors | src/transaction/signing.rs:193-240 | Which error recovery reports for a missing part, an unpinned envelope, key bytes of the wrong size, a key part that does not decode, and a bad signature. |
| Signing.RecoverOfSignedForm | src/transaction/signing.rs:193-286 | A signed form recovers if and only if the key is valid and the composite verifies, and then to the address of the key. |
| Signing.SignEncodeDecodeRecover | src/transaction/signing.rs:129-286 | Sign, encode, append any bytes, decode: the signed transaction and the appended bytes come back, and recovery gives the signer's address if and only if neither Ed448 scalar is zero modulo L. |
| Signing.ClampedSignerFails | src/transaction/signing.rs:129-286 | With a clamped secret scalar, what was signed fails to recover if and only if that scalar is 4L or the nonce scalar is zero modulo L, and otherwise recovers to the signer. |
| Consistency.RecoveryCanFail | src/transaction/signing.rs:129-286 | A concrete model of all library laws and a generated key with the clamped scalar 4L: every transaction is signed without an error and none recovers. |
| Signing.TamperEvident | src/transaction/signing.rs:183-224 | Two transactions that recover with one key and one signature are equal, or exhibit a Keccak-256 collision or two Ed448 transcripts with congruent digests. |
| Signing.WireTamperEvident | src/transaction/signing.rs:201-220 | Two byte strings read as signed transactions with one key and one signature are identical, or exhibit a Keccak-256 or challenge collision. |
| Signing.SenderDeterminesKey | src/crypto.rs:125-134 | Two transactions recover to one sender if and only if they carry one key, or two keys whose Keccak-256 digests collide on the 20 address bytes. |
| Signing.Ed448HalfNotSplicible | src/crypto.rs:355-359 | With the Ed448 half of a composite for another hash or binding, an accepted composite is refused, unless that exhibits a challenge collision. |
| Signing.P521HalfNotSplicible | src/crypto.rs:355-359 | With the P-521 half of a composite for another hash or binding, an accepted composite is refused, unless the two message scalars agree modulo n, one linear condition on the key holds, or r + n is below the field prime. |
| Signing.MlDsaHalfSplicible | src/crypto.rs:355-381 | With the ML-DSA-87 half of another composite, an accepted composite stays accepted if and only if the hashes are equal or that half also verifies for the other hash: the binding never matters. |
| Signing.MessageHalfInTransaction | src/transaction/signing.rs:143-154 | A transaction that recovers still does with the ML-DSA-87 half of any accepted signature over its preimage as a message. |
| Signing.NotMalleable | src/transaction/signing.rs:244-283 | Replacing the P-521 half by its twin, or the Ed448 S by any other bytes, makes an accepted composite fail. |
| Signing.P521HalfNotMalleable | src/transaction/signing.rs:244-283 | Replacing the P-521 s by any 66 bytes makes an accepted composite fail, unless it is unchanged, or r + n is below the field prime and the verifier computes another x-coordinate. |
| Signing.MessagesAreNotTransactions | src/crypto.rs:146-154 | A composite accepted for a message and for a transaction means a zero chain nonce, a SHAKE-256 collision or a challenge collision. |
| PathText.ParsesExactly | src/hdwallet/derivation.rs:148-172 | A text parses to a path if and only if it is blanks, any number of `m/`, well-formed components joined by `/`, blanks, and the path is their indices. |
| PathText.ComponentOutcome | src/hdwallet/derivation.rs:157-170 | A component parses, is too large or is invalid exactly as it spells a 31-bit index, a number of exactly 32 bits or neither; a number above 32 bits is invalid. |
| PathText.EmptyExactly | src/hdwallet/derivation.rs:148-152 | A text is refused as empty if and only if it is blanks around any number of `m/`. |
| PathText.ErrorsExactly | src/hdwallet/derivation.rs:148-172 | Every other refusal of a text names the first of its components that spells no index, with its position and kind, and such a component always causes it. |
| PathText.ParsedIsHardened | src/hdwallet/derivation.rs:148-172 | Every successful parse is a non-empty list of hardened indices. |
| PathText.PrintedPathParses | src/hdwallet/derivation.rs:139-172 | Printing a non-empty hardened path in decimal, with or without `m/` and with any suffix of apostrophes, `h` and `H`, parses back to it. |
| PathText.ParsedAlphabet | src/hdwallet/derivation.rs:148-172 | Every character of a text that parses is a digit, a plus sign, a slash, `m`, an apostrophe, `h`, `H` or one of the listed white-space characters. |
| PathText.BlanksIgnored | src/hdwallet/derivation.rs:149 | White-space characters around a text change neither the path nor the error. |
| PathText.DefaultPathParses | src/api.rs:15 | The repository's default path parses to its five indices. |
| PathText.PrefixIgnored | src/hdwallet/derivation.rs:144-149 | One more `m/` in front of a text that does not start with a blank changes nothing. |
| HdDerivation.DeriveChildSeed | src/hdwallet/derivation.rs:104-137 | The two loops compute the child-seed function, error kinds included. |
| HdDerivation.Rehardened | src/hdwallet/derivation.rs:120-123 | Masking and re-hardening gives every hardened index back. |
| HdDerivation.RehardenedWord | src/hdwallet/derivation.rs:120-123 | On 32-bit words the mask of the source is stripping, and setting the top bit is what hardening the stripped index gives. |
| HdDerivation.HardenedOnly | src/hdwallet/derivation.rs:105-112 | Derivation is refused for an index if and only if it is the first that is not hardened, whatever the seed. |
| HdDerivation.OnlyLibraryErrors | src/hdwallet/derivation.rs:118-127 | The child-number error can never occur. |
| HdDerivation.NodeCompose | src/hdwallet/derivation.rs:118-127 | Deriving along two paths in turn is deriving along their concatenation. |
| HdDerivation.ParsedPathDerives | src/hdwallet/derivation.rs:104-172 | A parsed path always passes the hardened check, and its seed is that of the node its indices lead to. |
| HdDerivation.CurveSeedsSeparate | src/hdwallet/derivation.rs:62-90 | One curve seed for two pairs of master seed and curve id means equal pairs, a SHAKE-256 collision on the bytes with the id at the end, or an HKDF collision. |

## Left out

- The internals of ML-DSA-87, Keccak, SHAKE-256, SHA-512, HKDF, BIP-32 and BIP-39, and the curve formulas of the `p521` and `ed448-goldilocks` crates: they are library code.
- The in-memory verification path of Ed448 keys (src/mdecc/ed448.rs:243-249): it calls a library only.
- That the orders L and n are prime: a hypothesis of `Ed448.OrderConstant` and `P521.OrderConstant`.
- Unforgeability, randomness of keys and nonces, and independence of derived seeds: they are not facts about this code.
- Zeroisation, constant-time comparison, `Debug` output, error texts and the `Scheme` traits of src/sign.rs: they have no functional content to prove.
- src/api.rs, src/wasm.rs, the binaries, benches and fuzz targets: they only call the code modelled here.
- Which RLP error comes first when one item has several faults, and where a failed item leaves the cursor: `Rlp` fixes one order, the library's own being unseen. What is accepted does not depend on it.
- Rust's `String` contexts are byte strings here, and path texts are sequences of Unicode scalar values.
