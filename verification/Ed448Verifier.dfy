/**
 The loops of src/mdecc/ed448.rs in their own form: the byte-wise comparison with the field
 prime, the incremental hasher and the Horner reduction of the digest modulo L. Each method
 is tied to the functions of modules Ed448 and Ed448Signature.
 */
module Ed448Verifier {
  import opened Outcomes
  import opened Bytes
  import opened Modular
  import opened Groups
  import opened Hashing
  import opened Ed448
  import opened Ed448Signature

  lemma SplitAt(s: seq<byte>, i: nat)
    requires i < |s|
    ensures FromLE(s) == FromLE(s[..i]) + Pow256(i) * (s[i] as int + 256 * FromLE(s[i + 1..]))
  {
    hide FromLE, Pow256;
    LESplit(s, i);
    LEHead(s[i..]);
    assert s[i..][1..] == s[i + 1..];
  }

  lemma DigitDecides(lowS: nat, lowT: nat, unit: nat, a: nat, b: nat)
    requires lowS < unit && a < b
    ensures lowS + unit * a < lowT + unit * b
  {
    var d := b - a;
    MultipleOutside(d, unit);
    calc {
      unit * b;
      { assert b == a + d; }
      unit * (a + d);
      unit * a + d * unit;
    }
  }

  /** Little-endian strings that agree above i are ordered by their bytes at i. */
  lemma HighestDifference(s: seq<byte>, t: seq<byte>, i: nat)
    requires |s| == |t| && i < |s| && s[i + 1..] == t[i + 1..] && s[i] < t[i]
    ensures FromLE(s) < FromLE(t)
  {
    hide Pow256;
    SplitAt(s, i);
    SplitAt(t, i);
    LEBound(s[..i]);
    var unit, high := Pow256(i), FromLE(s[i + 1..]);
    DigitDecides(FromLE(s[..i]), FromLE(t[..i]), unit, s[i] as int + 256 * high, t[i] as int + 256 * high);
  }

  method DecodeCanonicalPoint<P(==, !new)>(c: Curve<P>, raw: seq<byte>) returns (result: Result<P, CryptoError>)
    requires |raw| == PUBLIC_KEY_SIZE
    ensures result == CanonicalPoint(c, raw)
  {
    hide FromLE, Pow256;
    if raw[56] % 128 != 0 {
      return Err(CurveError);
    }
    FieldPrimeValue();
    ghost var y, p := raw[..56], FIELD_PRIME_LE;
    var yLtP := false;
    var i := 56;
    while i > 0
      invariant 0 <= i <= 56 && !yLtP
      invariant y[i..] == p[i..]
    {
      i := i - 1;
      if raw[i] < FIELD_PRIME_LE[i] {
        HighestDifference(y, p, i);
        yLtP := true;
        break;
      }
      if raw[i] > FIELD_PRIME_LE[i] {
        HighestDifference(p, y, i);
        break;
      }
    }
    assert yLtP <==> FromLE(y) < FromLE(p) by {
      assert i == 0 && y[0..] == p[0..] ==> y == p;
    }
    if !yLtP {
      return Err(CurveError);
    }
    match c.decompress(raw) {
      case None => return Err(CurveError);
      case Some(point) =>
        if Double(c, Double(c, point)) == c.group.zero {
          return Err(CurveError);
        }
        return Ok(point);
    }
  }

  lemma HornerStep(n: nat, b: nat, order: pos)
    ensures ((n % order) * 256 + b) % order == (b + 256 * n) % order
  {
    ModMul(n, 256, order);
    ModAdd((n % order) * 256, b, order);
    ModAdd(n * 256, b, order);
  }

  /** Horner's rule over the digest from its last byte: its little-endian value modulo L. */
  method ReduceDigest(digest: seq<byte>, order: pos) returns (k: nat)
    ensures k == FromLE(digest) % order
  {
    k := 0;
    var i := |digest|;
    while i > 0
      invariant 0 <= i <= |digest|
      invariant k == FromLE(digest[i..]) % order
    {
      i := i - 1;
      assert digest[i..][1..] == digest[i + 1..];
      HornerStep(FromLE(digest[i + 1..]), digest[i], order);
      k := (k * 256 + digest[i]) % order;
    }
    assert digest[0..] == digest;
  }

  method VerifyViaGoldilocks<P(==, !new)>(c: Curve<P>, shake: Xof, raw: seq<byte>, msg: seq<byte>,
                                          sig: seq<byte>, ctx: Option<seq<byte>>, mode: SigningMode,
                                          ghost opts: Option<SignatureOpts>)
    returns (result: Result<(), CryptoError>)
    requires |raw| == PUBLIC_KEY_SIZE && |sig| == SIGNATURE_SIZE
    requires mode == FromOpts(opts) && ctx == ContextOpt(mode, opts)
    ensures result == SplitVerdict(c, shake, raw, msg, sig[..57], sig[57..], opts)
  {
    hide CanonicalPoint, CanonicalScalar, Equation, FromOpts, ContextOpt;
    var a := DecodeCanonicalPoint(c, raw);
    if a.Err? {
      return Err(CurveError);
    }
    var rBytes, sBytes := sig[..57], sig[57..];
    var r := DecodeCanonicalPoint(c, rBytes);
    if r.Err? {
      return Err(SignatureError);
    }
    var scalar := CanonicalScalar(c, sBytes);
    if scalar == None {
      return Err(SignatureError);
    }

    var hasher := new Shake256();
    hasher.Update(DOMAIN);
    assert [] + DOMAIN == DOMAIN;
    var phflag: byte := match mode { case Ed448Ph => 1 case Ed448 => 0 };
    hasher.Update([phflag]);
    var ctxBytes := ctx.UnwrapOr([]);
    if |ctxBytes| > 255 {
      return Err(SignatureError);
    }
    hasher.Update([|ctxBytes|]);
    hasher.Update(ctxBytes);
    hasher.Update(rBytes);
    hasher.Update(raw);
    match mode {
      case Ed448 => hasher.Update(msg);
      case Ed448Ph =>
        var phHasher := new Shake256();
        phHasher.Update(msg);
        assert [] + msg == msg;
        var phHash := phHasher.Read(shake, 64);
        hasher.Update(phHash);
    }
    ghost var parts := PartsOf(shake, raw, msg, rBytes, opts);
    assert hasher.absorbed == Transcript(parts);

    var kBytes := hasher.Read(shake, 114);
    var k := ReduceDigest(kBytes, c.order);
    if Equation(c, scalar.value, k, a.value, r.value) {
      return Ok(());
    } else {
      return Err(SignatureError);
    }
  }

  /** `verify_sig` for a key without its in-memory counterpart, as after `from_bytes`. */
  method VerifySig<P(==, !new)>(c: Curve<P>, shake: Xof, raw: seq<byte>, msg: seq<byte>,
                                signature: seq<byte>, opts: Option<SignatureOpts>)
    returns (result: Result<(), CryptoError>)
    requires |raw| == PUBLIC_KEY_SIZE
    ensures result == Verdict(c, shake, raw, msg, signature, opts)
  {
    if |signature| != SIGNATURE_SIZE {
      return Err(InvalidKeySize(SIGNATURE_SIZE, |signature|));
    }
    var mode := FromOpts(opts);
    var ctxOpt := ContextOpt(mode, opts);
    result := VerifyViaGoldilocks(c, shake, raw, msg, signature, ctxOpt, mode, opts);
  }
}
