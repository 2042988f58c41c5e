/**
 Ed448 signatures as byte strings (src/mdecc/ed448.rs): the scalar S, the hashed transcript,
 the signing options, and what `verify_sig` accepts for a key read from bytes.
 */
module Ed448Signature {
  import opened Outcomes
  import opened Bytes
  import opened Modular
  import opened Groups
  import opened Hashing
  import opened Ed448

  // ---- the scalar S ---------------------------------------------------------

  /** `Scalar::from_canonical_bytes`: unused bits clear and fully reduced. */
  function CanonicalScalar<P>(c: Curve<P>, raw: seq<byte>): Option<nat>
    requires |raw| == 57
  {
    if raw[56] != 0 || raw[55] / 64 != 0 || FromLE(raw) >= c.order then None
    else Some(FromLE(raw))
  }

  lemma TwoBytes(s: seq<byte>)
    requires |s| == 2
    ensures FromLE(s) == s[0] as int + 256 * (s[1] as int)
  {
    assert FromLE(s[1..]) == s[1] + 256 * FromLE(s[1..][1..]);
  }

  lemma TopMultiple(low: nat, unit: nat, top: nat)
    requires low + unit * top < 64 * unit
    ensures top < 64
  {
  }

  /** A value below 2^446 leaves the top ten bits of 57 bytes clear. */
  lemma TopBits(raw: seq<byte>)
    requires |raw| == 57 && FromLE(raw) < 64 * Pow256(55)
    ensures raw[56] == 0 && raw[55] < 64
  {
    hide FromLE, Pow256;
    LESplit(raw, 55);
    TwoBytes(raw[55..]);
    var low, unit, top := FromLE(raw[..55]), Pow256(55), raw[55] as int + 256 * (raw[56] as int);
    TopMultiple(low, unit, top);
  }

  /** Each reduced scalar has exactly one accepted encoding. */
  lemma ScalarExactly<P(!new)>(c: Curve<P>, raw: seq<byte>, n: nat)
    requires |raw| == 57 && OrderLaws(c.order)
    ensures CanonicalScalar(c, raw) == Some(n) <==> n < c.order && raw == ToLE(n, 57)
  {
    hide ToLE, FromLE, Pow256, Prime;
    ToFromLE(raw);
    PowStep(55);
    assert WidthAt(c.order, 56) && WidthAt(c.order, 57);
    if n < c.order && raw == ToLE(n, 57) {
      FromToLE(n, 57);
      TopBits(raw);
    }
  }

  // ---- options, mode and context -----------------------------------------------

  datatype SignatureOpts = SignatureOpts(context: seq<byte>)

  datatype SigningMode = Ed448 | Ed448Ph

  /** The bytes of "PREHASHED". */
  const PREHASH_CONTEXT: seq<byte> := [80, 82, 69, 72, 65, 83, 72, 69, 68]

  function FromOpts(opts: Option<SignatureOpts>): SigningMode {
    if opts.Some? && opts.value.context == PREHASH_CONTEXT then Ed448Ph else SigningMode.Ed448
  }

  /** The sentinel is never forwarded, nor is an empty context. */
  function ContextOpt(mode: SigningMode, opts: Option<SignatureOpts>): Option<seq<byte>> {
    match mode
    case Ed448Ph => None
    case Ed448 =>
      if opts.Some? && opts.value.context != [] then Some(opts.value.context) else None
  }

  function ContextBytes(opts: Option<SignatureOpts>): seq<byte> {
    ContextOpt(FromOpts(opts), opts).UnwrapOr([])
  }

  /** Mode and context lose nothing but the difference between no options and an empty context. */
  lemma OptionsMergeOnlyEmpty(o1: Option<SignatureOpts>, o2: Option<SignatureOpts>)
    ensures FromOpts(o1) == FromOpts(o2) && ContextBytes(o1) == ContextBytes(o2)
       <==> || o1 == o2
            || (o1 == None && o2 == Some(SignatureOpts([])))
            || (o2 == None && o1 == Some(SignatureOpts([])))
  {
    assert PREHASH_CONTEXT != [];
  }

  // ---- the transcript -----------------------------------------------------------

  /** "SigEd448" */
  const DOMAIN: seq<byte> := [83, 105, 103, 69, 100, 52, 52, 56]

  /** Everything the challenge commits to; `body` is the message or its 64-byte prehash. */
  datatype Parts = Parts(mode: SigningMode, context: seq<byte>, r: seq<byte>, a: seq<byte>, body: seq<byte>)

  predicate WellSized(p: Parts) {
    |p.context| <= 255 && |p.r| == 57 && |p.a| == 57
  }

  function PhFlag(mode: SigningMode): byte {
    match mode
    case Ed448Ph => 1
    case Ed448 => 0
  }

  function Transcript(p: Parts): seq<byte>
    requires WellSized(p)
  {
    DOMAIN + [PhFlag(p.mode)] + [|p.context|] + p.context + p.r + p.a + p.body
  }

  /** Reads a transcript back from its own length byte. */
  function ParseTranscript(t: seq<byte>): Option<Parts> {
    if |t| < 10 || t[..8] != DOMAIN || t[8] > 1 then None
    else
      var n: nat := t[9];
      if |t| < 124 + n then None
      else Some(Parts(if t[8] == 1 then Ed448Ph else SigningMode.Ed448,
                      t[10..10 + n], t[10 + n..67 + n], t[67 + n..124 + n], t[124 + n..]))
  }

  lemma TranscriptParses(p: Parts)
    requires WellSized(p)
    ensures ParseTranscript(Transcript(p)) == Some(p)
  {
    var t := Transcript(p);
    var n := |p.context|;
    assert t[..8] == DOMAIN;
    assert t[10..10 + n] == p.context;
    assert t[10 + n..67 + n] == p.r;
    assert t[67 + n..124 + n] == p.a;
    assert t[124 + n..] == p.body;
  }

  /** The transcript is uniquely parseable: equal bytes, equal parts. */
  lemma TranscriptInjective(p: Parts, q: Parts)
    requires WellSized(p) && WellSized(q)
    ensures Transcript(p) == Transcript(q) <==> p == q
  {
    hide Transcript, ParseTranscript;
    TranscriptParses(p);
    TranscriptParses(q);
  }

  // ---- verification -----------------------------------------------------------------

  function Body(shake: Xof, mode: SigningMode, msg: seq<byte>): seq<byte> {
    match mode
    case Ed448 => msg
    case Ed448Ph => shake(msg, 64)
  }

  function PartsOf(shake: Xof, key: seq<byte>, msg: seq<byte>, r: seq<byte>, opts: Option<SignatureOpts>): Parts {
    Parts(FromOpts(opts), ContextBytes(opts), r, key, Body(shake, FromOpts(opts), msg))
  }

  /**
   The hashed bytes of section 5.2.7 of RFC 8032, dom4(flag, context) || R || A || body: without
   options, with the context "PREHASHED" that selects the prehash mode, and with any other.
   */
  lemma HashedBytes(shake: Xof, key: seq<byte>, msg: seq<byte>, r: seq<byte>, opts: Option<SignatureOpts>)
    requires |key| == 57 && |r| == 57 && (opts.Some? ==> |opts.value.context| <= 255)
    ensures |ContextBytes(opts)| <= 255 && WellSized(PartsOf(shake, key, msg, r, opts))
    ensures Transcript(PartsOf(shake, key, msg, r, opts)) ==
            match opts
              case None => [83, 105, 103, 69, 100, 52, 52, 56, 0, 0] + r + key + msg
              case Some(o) =>
                if o.context == [80, 82, 69, 72, 65, 83, 72, 69, 68] then
                  [83, 105, 103, 69, 100, 52, 52, 56, 1, 0] + r + key + shake(msg, 64)
                else
                  [83, 105, 103, 69, 100, 52, 52, 56, 0, |o.context|] + o.context + r + key + msg
  {
  }

  /** The 114-byte digest of the transcript, read little-endian and reduced modulo L. */
  function Challenge<P>(c: Curve<P>, shake: Xof, p: Parts): (k: nat)
    requires WellSized(p)
    ensures k < c.order
  {
    FromLE(shake(Transcript(p), 114)) % c.order
  }

  /** The verdict on a signature already split into R and S. */
  function SplitVerdict<P(==)>(c: Curve<P>, shake: Xof, key: seq<byte>, msg: seq<byte>,
                               r: seq<byte>, s: seq<byte>, opts: Option<SignatureOpts>)
    : Result<(), CryptoError>
    requires |key| == PUBLIC_KEY_SIZE && |r| == 57 && |s| == 57
  {
    var a := CanonicalPoint(c, key);
    if a.Err? then Err(CurveError)
    else
      var rPoint := CanonicalPoint(c, r);
      if rPoint.Err? then Err(SignatureError)
      else
        var scalar := CanonicalScalar(c, s);
        if scalar == None then Err(SignatureError)
        else if |ContextBytes(opts)| > 255 then Err(SignatureError)
        else
          var k := Challenge(c, shake, PartsOf(shake, key, msg, r, opts));
          if Equation(c, scalar.value, k, a.value, rPoint.value) then Ok(()) else Err(SignatureError)
  }

  /** `verify_sig` for a key read from bytes. */
  function Verdict<P(==)>(c: Curve<P>, shake: Xof, key: seq<byte>, msg: seq<byte>,
                          sig: seq<byte>, opts: Option<SignatureOpts>)
    : Result<(), CryptoError>
    requires |key| == PUBLIC_KEY_SIZE
  {
    if |sig| != SIGNATURE_SIZE then Err(InvalidKeySize(SIGNATURE_SIZE, |sig|))
    else SplitVerdict(c, shake, key, msg, sig[..57], sig[57..], opts)
  }

  /** `PublicKey::from_bytes`: the bytes are kept once they are known to be canonical. */
  function PublicKeyFromBytes<P(==)>(c: Curve<P>, data: seq<byte>): Result<seq<byte>, CryptoError> {
    if |data| != PUBLIC_KEY_SIZE then Err(InvalidKeySize(PUBLIC_KEY_SIZE, |data|))
    else if CanonicalPoint(c, data).Err? then Err(CurveError)
    else Ok(data)
  }

  // ---- verification as RFC 8032 writes it ------------------------------------------------

  lemma LongContext(opts: Option<SignatureOpts>)
    ensures |ContextBytes(opts)| <= 255 <==> opts.None? || |opts.value.context| <= 255
  {
  }

  lemma FromToLEOf<P(!new)>(c: Curve<P>, raw: seq<byte>)
    requires |raw| == 57 && CanonicalScalar(c, raw).Some?
    ensures CanonicalScalar(c, raw).value == FromLE(raw)
  {
    hide FromLE;
  }

  /**
   Section 5.2.7 of RFC 8032: S below L, R and A decode, and [4][S]B = [4]R + [4][k]A for the
   unreduced digest k of the bytes written out here.
   */
  lemma AcceptedAsInRfc<P(!new)>(c: Curve<P>, shake: Xof, key: seq<byte>, msg: seq<byte>, sig: seq<byte>,
                                 opts: Option<SignatureOpts>)
    requires Lawful(c) && |key| == 57 && |sig| == 114 && (opts.Some? ==> |opts.value.context| <= 255)
    ensures var r := sig[..57];
            var hashed :=
              match opts
                case None => [83, 105, 103, 69, 100, 52, 52, 56, 0, 0] + r + key + msg
                case Some(o) =>
                  if o.context == [80, 82, 69, 72, 65, 83, 72, 69, 68] then
                    [83, 105, 103, 69, 100, 52, 52, 56, 1, 0] + r + key + shake(msg, 64)
                  else
                    [83, 105, 103, 69, 100, 52, 52, 56, 0, |o.context|] + o.context + r + key + msg;
            var s, k := FromLE(sig[57..]), FromLE(shake(hashed, 114));
            var a, rPoint := CanonicalPoint(c, key), CanonicalPoint(c, r);
            Verdict(c, shake, key, msg, sig, opts).Ok? <==>
              && a.Ok? && rPoint.Ok? && s < c.order
              && Mul(c.group, 4, Mul(c.group, s, c.base))
                 == c.group.add(Mul(c.group, 4, rPoint.value), Mul(c.group, 4, Mul(c.group, k, a.value)))
  {
    hide Lawful, Equation, CanonicalPoint, CanonicalScalar, Transcript, PartsOf, ContextBytes, FromOpts, ToLE, FromLE,
         Mul;
    var r, raw := sig[..57], sig[57..];
    HashedBytes(shake, key, msg, r, opts);
    OrderFacts(c);
    ScalarExactly(c, raw, FromLE(raw));
    ToFromLE(raw);
    if CanonicalScalar(c, raw).Some? {
      ScalarExactly(c, raw, CanonicalScalar(c, raw).value);
      FromToLEOf(c, raw);
    }
    var k := FromLE(shake(Transcript(PartsOf(shake, key, msg, r, opts)), 114));
    if CanonicalPoint(c, key).Ok? && CanonicalPoint(c, r).Ok? {
      var a, rPoint := CanonicalPoint(c, key).value, CanonicalPoint(c, r).value;
      ReducedChallenge(c, FromLE(raw), k, a, rPoint);
      EquationIsRfc(c, FromLE(raw), k, a, rPoint);
    }
  }

  /** Which error is reported: the signature's length first, then the key, then everything else as one. */
  lemma ErrorsAsReported<P(!new)>(c: Curve<P>, shake: Xof, key: seq<byte>, msg: seq<byte>, sig: seq<byte>,
                                  opts: Option<SignatureOpts>)
    requires |key| == 57
    ensures |sig| != 114 ==> Verdict(c, shake, key, msg, sig, opts) == Err(InvalidKeySize(114, |sig|))
    ensures |sig| == 114 && CanonicalPoint(c, key).Err? ==>
              Verdict(c, shake, key, msg, sig, opts) == Err(CurveError)
    ensures |sig| == 114 && CanonicalPoint(c, key).Ok? ==>
              Verdict(c, shake, key, msg, sig, opts) in [Ok(()), Err(SignatureError)]
    ensures opts.Some? && |opts.value.context| > 255 ==> Verdict(c, shake, key, msg, sig, opts).Err?
  {
    hide CanonicalPoint, CanonicalScalar, Equation, Challenge, ContextBytes;
    LongContext(opts);
  }

  // ---- what acceptance means ----------------------------------------------------------

  /**
   For fixed key, message, options and R at most one S is accepted: S must be reduced, has
   one encoding, and the challenge does not depend on it.
   */
  lemma AtMostOneS<P(!new)>(c: Curve<P>, shake: Xof, key: seq<byte>, msg: seq<byte>,
                            sig: seq<byte>, sig': seq<byte>, opts: Option<SignatureOpts>)
    requires Lawful(c) && |key| == PUBLIC_KEY_SIZE
    requires Verdict(c, shake, key, msg, sig, opts).Ok? && Verdict(c, shake, key, msg, sig', opts).Ok?
    requires sig[..57] == sig'[..57]
    ensures sig == sig'
  {
    hide Lawful, Equation, CanonicalPoint, CanonicalScalar, Challenge;
    var s, s' := CanonicalScalar(c, sig[57..]).value, CanonicalScalar(c, sig'[57..]).value;
    OrderFacts(c);
    ScalarExactly(c, sig[57..], s);
    ScalarExactly(c, sig'[57..], s');
    var a, r := CanonicalPoint(c, key).value, CanonicalPoint(c, sig[..57]).value;
    ScalarUnique(c, s, s', Challenge(c, shake, PartsOf(shake, key, msg, sig[..57], opts)), a, r);
    assert sig == sig[..57] + sig[57..] && sig' == sig'[..57] + sig'[57..];
  }

  /**
   For every accepted key and R, every message and admissible context, exactly one string of
   57 bytes completes a signature, torsion in the key and in R included.
   */
  lemma ExactlyOneS<P(!new)>(c: Curve<P>, shake: Xof, key: seq<byte>, msg: seq<byte>,
                             r: seq<byte>, opts: Option<SignatureOpts>) returns (s: seq<byte>)
    requires Lawful(c) && |key| == PUBLIC_KEY_SIZE && |r| == 57 && |ContextBytes(opts)| <= 255
    requires CanonicalPoint(c, key).Ok? && CanonicalPoint(c, r).Ok?
    ensures |s| == 57
    ensures forall t: seq<byte> | |t| == 57 :: Verdict(c, shake, key, msg, r + t, opts).Ok? <==> t == s
  {
    hide Lawful, Equation, CanonicalPoint, CanonicalScalar, Challenge, ContextBytes, FromOpts, ToLE;
    var k := Challenge(c, shake, PartsOf(shake, key, msg, r, opts));
    var n := ExactlyOneScalar(c, k, CanonicalPoint(c, key).value, CanonicalPoint(c, r).value);
    s := ToLE(n, 57);
    OrderFacts(c);
    ScalarExactly(c, s, n);
    forall t: seq<byte> | |t| == 57
      ensures Verdict(c, shake, key, msg, r + t, opts).Ok? <==> t == s
    {
      assert (r + t)[..57] == r && (r + t)[57..] == t;
      if CanonicalScalar(c, t).Some? {
        ScalarExactly(c, t, CanonicalScalar(c, t).value);
      }
    }
  }

  lemma AcceptedKeyIsNotSmall<P(!new)>(c: Curve<P>, key: seq<byte>)
    requires |key| == PUBLIC_KEY_SIZE && CanonicalPoint(c, key).Ok?
    ensures !SmallOrder(c, CanonicalPoint(c, key).value)
  {
  }

  /**
   One signature accepted under one key for two messages, or two sets of options, means the
   two transcripts have congruent digests modulo L.
   */
  lemma SameSignatureSameChallenge<P(!new)>(c: Curve<P>, shake: Xof, key: seq<byte>, sig: seq<byte>,
                                            msg: seq<byte>, opts: Option<SignatureOpts>,
                                            msg': seq<byte>, opts': Option<SignatureOpts>)
    requires Lawful(c) && |key| == PUBLIC_KEY_SIZE
    requires Verdict(c, shake, key, msg, sig, opts).Ok? && Verdict(c, shake, key, msg', sig, opts').Ok?
    ensures |ContextBytes(opts)| <= 255 && |ContextBytes(opts')| <= 255 && |sig| == SIGNATURE_SIZE
    ensures Challenge(c, shake, PartsOf(shake, key, msg, sig[..57], opts))
         == Challenge(c, shake, PartsOf(shake, key, msg', sig[..57], opts'))
  {
    hide Lawful, Equation, SmallOrder, CanonicalPoint, CanonicalScalar, Challenge, ContextBytes, FromOpts;
    var r := sig[..57];
    var k := Challenge(c, shake, PartsOf(shake, key, msg, r, opts));
    var k' := Challenge(c, shake, PartsOf(shake, key, msg', r, opts'));
    var s := CanonicalScalar(c, sig[57..]).value;
    var a := CanonicalPoint(c, key).value;
    AcceptedKeyIsNotSmall(c, key);
    ChallengeUnique(c, s, k, k', a, CanonicalPoint(c, r).value);
    ModSmall(k, c.order);
    ModSmall(k', c.order);
  }

  /** The signature bytes of section 5.2.6 of RFC 8032 for secret scalar `a` and nonce scalar `r`. */
  function RfcSignature<P>(c: Curve<P>, shake: Xof, a: nat, r: nat, msg: seq<byte>, opts: Option<SignatureOpts>)
    : (sig: seq<byte>)
    requires |ContextBytes(opts)| <= 255
    ensures |sig| == SIGNATURE_SIZE
  {
    var key := EncodePoint(c, Mul(c.group, a, c.base));
    var rBytes := EncodePoint(c, Mul(c.group, r, c.base));
    var k := Challenge(c, shake, PartsOf(shake, key, msg, rBytes, opts));
    rBytes + ToLE((r + k * a) % c.order, 57)
  }

  lemma EncodedFieldsOf<P(!new)>(c: Curve<P>, p: P)
    requires Lawful(c)
    ensures var raw := EncodePoint(c, p);
            EncodedY(raw) == c.y(p) && raw[56] % 128 == 0 && raw[56] / 128 == c.x(p) % 2
  {
    assert CoordinatesAt(c, p);
    EncodedFields(c, p);
  }

  /** Points that share an encoding agree on being of small order. */
  lemma SameEncodingSamePoint<P(!new)>(c: Curve<P>, p: P, q: P)
    requires Lawful(c) && EncodePoint(c, p) == EncodePoint(c, q) && !SmallOrder(c, q)
    ensures p == q
  {
    hide SmallOrder, ToLE, FromLE, EncodePoint;
    EncodedFieldsOf(c, p);
    EncodedFieldsOf(c, q);
    assert CoordinatesAt(c, p) && CoordinatesAt(c, q);
    assert PairAt(c, p, q);
    if c.x(q) == 0 {
      ZeroXIsSmallOrder(c, q);
    } else if c.x(p) != 0 {
      ParityDecides(c.x(q), c.x(p));
    }
  }

  /** The point [n]B is accepted, and read back, exactly when L does not divide n. */
  lemma AcceptedKey<P(!new)>(c: Curve<P>, n: nat)
    requires Lawful(c)
    ensures var p := Mul(c.group, n, c.base);
            var d := CanonicalPoint(c, EncodePoint(c, p));
            if n % c.order == 0 then d.Err? else d == Ok(p)
  {
    hide Lawful, SmallOrder, CanonicalPoint, EncodePoint, Mul;
    var p := Mul(c.group, n, c.base);
    var raw := EncodePoint(c, p);
    SubgroupSmallOrder(c, n);
    DecodesExactly(c, raw, p);
    if n % c.order == 0 && CanonicalPoint(c, raw).Ok? {
      var q := CanonicalPoint(c, raw).value;
      DecodesExactly(c, raw, q);
      SameEncodingSamePoint(c, p, q);
    }
  }

  lemma SubgroupVerdict<P(!new)>(c: Curve<P>, shake: Xof, a: nat, r: nat, s: nat,
                                    msg: seq<byte>, opts: Option<SignatureOpts>)
    requires Lawful(c) && |ContextBytes(opts)| <= 255 && s < c.order
    ensures var key := EncodePoint(c, Mul(c.group, a, c.base));
            var rBytes := EncodePoint(c, Mul(c.group, r, c.base));
            var k := Challenge(c, shake, PartsOf(shake, key, msg, rBytes, opts));
            var accepted := Verdict(c, shake, key, msg, rBytes + ToLE(s, 57), opts).Ok?;
            accepted <==> a % c.order != 0 && r % c.order != 0 && s == (r + k * a) % c.order
  {
    hide Lawful, Equation, SmallOrder, CanonicalPoint, CanonicalScalar, EncodePoint, Challenge, ToLE, Mul,
         ContextBytes, FromOpts;
    var aPoint, rPoint := Mul(c.group, a, c.base), Mul(c.group, r, c.base);
    var key, rBytes := EncodePoint(c, aPoint), EncodePoint(c, rPoint);
    var sig := rBytes + ToLE(s, 57);
    assert sig[..57] == rBytes && sig[57..] == ToLE(s, 57);
    AcceptedKey(c, a);
    AcceptedKey(c, r);
    OrderFacts(c);
    ScalarExactly(c, ToLE(s, 57), s);
    var k := Challenge(c, shake, PartsOf(shake, key, msg, rBytes, opts));
    EquationInSubgroup(c, s, k, a, r);
    ModSmall(s, c.order);
  }

  /** Reducing the challenge does not change r + k * a modulo n. */
  lemma ReducedProduct(r: nat, k: nat, a: nat, n: pos)
    ensures (r + (k % n) * a) % n == (r + k * a) % n
  {
    ModMul(k, a, n);
    ModAdd((k % n) * a, r, n);
    ModAdd(k * a, r, n);
  }

  /**
   For a key [a]B and a nonce point [r]B, with any reduced S: the verifier accepts exactly
   when neither a nor r is zero modulo L and S = r + k * a modulo L, k being the digest of the
   bytes written out here.
   */
  lemma AcceptedInSubgroup<P(!new)>(c: Curve<P>, shake: Xof, a: nat, r: nat, s: nat,
                                    msg: seq<byte>, opts: Option<SignatureOpts>)
    requires Lawful(c) && (opts.Some? ==> |opts.value.context| <= 255) && s < c.order
    ensures var key := EncodePoint(c, Mul(c.group, a, c.base));
            var rBytes := EncodePoint(c, Mul(c.group, r, c.base));
            var hashed :=
              match opts
                case None => [83, 105, 103, 69, 100, 52, 52, 56, 0, 0] + rBytes + key + msg
                case Some(o) =>
                  if o.context == [80, 82, 69, 72, 65, 83, 72, 69, 68] then
                    [83, 105, 103, 69, 100, 52, 52, 56, 1, 0] + rBytes + key + shake(msg, 64)
                  else
                    [83, 105, 103, 69, 100, 52, 52, 56, 0, |o.context|] + o.context + rBytes + key + msg;
            var k := FromLE(shake(hashed, 114));
            var accepted := Verdict(c, shake, key, msg, rBytes + ToLE(s, 57), opts).Ok?;
            accepted <==> a % c.order != 0 && r % c.order != 0 && s == (r + k * a) % c.order
  {
    hide Lawful, Verdict, EncodePoint, ToLE, FromLE, Mul, Transcript, PartsOf, ContextBytes, FromOpts;
    var key := EncodePoint(c, Mul(c.group, a, c.base));
    var rBytes := EncodePoint(c, Mul(c.group, r, c.base));
    HashedBytes(shake, key, msg, rBytes, opts);
    SubgroupVerdict(c, shake, a, r, s, msg, opts);
    ReducedProduct(r, FromLE(shake(Transcript(PartsOf(shake, key, msg, rBytes, opts)), 114)), a, c.order);
  }

  /** The signature of section 5.2.6 of RFC 8032, with the hashed bytes written out. */
  lemma RfcSignatureBytes<P(!new)>(c: Curve<P>, shake: Xof, a: nat, r: nat,
                                   msg: seq<byte>, opts: Option<SignatureOpts>)
    requires opts.Some? ==> |opts.value.context| <= 255
    ensures |ContextBytes(opts)| <= 255
    ensures var key := EncodePoint(c, Mul(c.group, a, c.base));
            var rBytes := EncodePoint(c, Mul(c.group, r, c.base));
            var hashed :=
              match opts
                case None => [83, 105, 103, 69, 100, 52, 52, 56, 0, 0] + rBytes + key + msg
                case Some(o) =>
                  if o.context == [80, 82, 69, 72, 65, 83, 72, 69, 68] then
                    [83, 105, 103, 69, 100, 52, 52, 56, 1, 0] + rBytes + key + shake(msg, 64)
                  else
                    [83, 105, 103, 69, 100, 52, 52, 56, 0, |o.context|] + o.context + rBytes + key + msg;
            RfcSignature(c, shake, a, r, msg, opts)
            == rBytes + ToLE((r + FromLE(shake(hashed, 114)) * a) % c.order, 57)
  {
    hide EncodePoint, ToLE, FromLE, Mul, Transcript, PartsOf, ContextBytes, FromOpts;
    var key := EncodePoint(c, Mul(c.group, a, c.base));
    var rBytes := EncodePoint(c, Mul(c.group, r, c.base));
    HashedBytes(shake, key, msg, rBytes, opts);
    ReducedProduct(r, FromLE(shake(Transcript(PartsOf(shake, key, msg, rBytes, opts)), 114)), a, c.order);
  }

  /**
   Completeness with its exact condition: an RFC 8032 signature verifies if and only if
   neither the secret scalar nor the nonce scalar is zero modulo L.
   */
  lemma RfcSignatureAccepted<P(!new)>(c: Curve<P>, shake: Xof, a: nat, r: nat,
                                      msg: seq<byte>, opts: Option<SignatureOpts>)
    requires Lawful(c) && |ContextBytes(opts)| <= 255
    ensures Verdict(c, shake, EncodePoint(c, Mul(c.group, a, c.base)), msg,
                    RfcSignature(c, shake, a, r, msg, opts), opts).Ok?
       <==> a % c.order != 0 && r % c.order != 0
  {
    hide Lawful, Verdict, EncodePoint, Challenge, ToLE, Mul, ContextBytes, FromOpts;
    var key := EncodePoint(c, Mul(c.group, a, c.base));
    var rBytes := EncodePoint(c, Mul(c.group, r, c.base));
    var k := Challenge(c, shake, PartsOf(shake, key, msg, rBytes, opts));
    SubgroupVerdict(c, shake, a, r, (r + k * a) % c.order, msg, opts);
  }
}
