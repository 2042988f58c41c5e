/**
 Deterministic derivation of a P-521 key pair from a seed (src/mdecc/p521.rs): SHA-512 over
 the seed and a one-byte counter until the digest is a usable scalar.
 */
module P521Derivation {
  import opened Outcomes
  import opened Bytes
  import opened Modular
  import opened P521

  type Sha512 = seq<byte> -> seq<byte>

  predicate DigestAt(sha512: Sha512, input: seq<byte>) {
    |sha512(input)| == 64
  }

  ghost predicate LawfulSha512(sha512: Sha512) {
    forall input :: DigestAt(sha512, input)
  }

  /** The bytes of "blackchain-p521-derive-v1". */
  const PREFIX: seq<byte> :=
    [98, 108, 97, 99, 107, 99, 104, 97, 105, 110, 45, 112, 53, 50, 49, 45, 100, 101, 114, 105,
     118, 101, 45, 118, 49]

  function DigestOf(sha512: Sha512, seed: seq<byte>, counter: byte): seq<byte> {
    sha512(PREFIX + seed + [counter])
  }

  /** `SigningKey::from_slice`: 66 bytes holding a scalar in [1, n). */
  function SecretFromSlice<P>(c: Curve<P>, raw: seq<byte>): Option<nat> {
    if |raw| == PRIVATE_KEY_SIZE && Scalar(c, FromBE(raw)) then Some(FromBE(raw)) else None
  }

  /** The first nonzero digest, from `counter` on. */
  function FirstScalar(sha512: Sha512, seed: seq<byte>, counter: nat): Option<nat>
    decreases 256 - counter
  {
    if counter >= 256 then None
    else
      var n := FromBE(DigestOf(sha512, seed, counter));
      if n != 0 then Some(n) else FirstScalar(sha512, seed, counter + 1)
  }

  /** `d` is the value of the digest at `at`, the first that is not zero. */
  ghost predicate FirstNonzero(sha512: Sha512, seed: seq<byte>, at: nat, d: nat) {
    && at < 256
    && d == FromBE(DigestOf(sha512, seed, at)) != 0
    && forall i: nat | i < at :: FromBE(DigestOf(sha512, seed, i)) == 0
  }

  /** Two zero bytes in front of a digest: its value is kept, and it is below the order. */
  lemma PaddedDigest<P(!new)>(c: Curve<P>, digest: seq<byte>)
    requires OrderLaws(c.order) && |digest| == 64
    ensures FromBE([0, 0] + digest) == FromBE(digest) < Pow256(64) < c.order
    ensures SecretFromSlice(c, [0, 0] + digest) == if FromBE(digest) == 0 then None else Some(FromBE(digest))
  {
    hide Prime, FromBE, Pow256;
    assert WidthAt(c.order, 64);
    BELeadingZero(digest);
    BELeadingZero([0] + digest);
    assert [0] + ([0] + digest) == [0, 0] + digest;
    BEBound(digest);
  }

  /** What the loop computes: the first usable digest, or nothing when all 256 are zero. */
  lemma {:induction false} FirstScalarExact(sha512: Sha512, seed: seq<byte>, counter: nat, d: nat)
    requires counter <= 256
    requires forall i: nat | i < counter :: FromBE(DigestOf(sha512, seed, i)) == 0
    ensures FirstScalar(sha512, seed, counter) == Some(d) <==>
              exists at: nat :: FirstNonzero(sha512, seed, at, d)
    ensures FirstScalar(sha512, seed, counter) == None <==>
              forall i: nat | i < 256 :: FromBE(DigestOf(sha512, seed, i)) == 0
    decreases 256 - counter
  {
    if counter == 256 {
    } else {
      if FromBE(DigestOf(sha512, seed, counter)) == 0 {
        FirstScalarExact(sha512, seed, counter + 1, d);
      } else {
        var n := FromBE(DigestOf(sha512, seed, counter));
        assert FirstNonzero(sha512, seed, counter, n);
        forall at: nat | FirstNonzero(sha512, seed, at, d)
          ensures at == counter
        {
        }
      }
    }
  }

  /**
   The scalar on the hashed bytes themselves, "blackchain-p521-derive-v1", the seed and one counter
   byte: it is the value of the first digest that is not zero.
   */
  ghost predicate FirstDigestValue(sha512: Sha512, seed: seq<byte>, d: nat) {
    var front := [98, 108, 97, 99, 107, 99, 104, 97, 105, 110, 45, 112, 53, 50, 49, 45,
                  100, 101, 114, 105, 118, 101, 45, 118, 49] + seed;
    exists at: byte ::
      && FromBE(sha512(front + [at])) == d != 0
      && forall i: byte | i < at :: FromBE(sha512(front + [i])) == 0
  }

  lemma FirstScalarBytes(sha512: Sha512, seed: seq<byte>, d: nat)
    ensures FirstScalar(sha512, seed, 0) == Some(d) <==> FirstDigestValue(sha512, seed, d)
  {
    hide FromBE, FirstScalar;
    FirstScalarExact(sha512, seed, 0, d);
    var front := [98, 108, 97, 99, 107, 99, 104, 97, 105, 110, 45, 112, 53, 50, 49, 45,
                  100, 101, 114, 105, 118, 101, 45, 118, 49] + seed;
    assert front == PREFIX + seed;
    if FirstScalar(sha512, seed, 0) == Some(d) {
      var at: nat :| FirstNonzero(sha512, seed, at, d);
      forall i: byte | i < at
        ensures FromBE(sha512(front + [i])) == 0
      {
        assert FromBE(DigestOf(sha512, seed, i)) == 0;
      }
      assert FromBE(sha512(front + [at])) == d;
    }
    if FirstDigestValue(sha512, seed, d) {
      var at: byte :|
        && FromBE(sha512(front + [at])) == d != 0
        && forall i: byte | i < at :: FromBE(sha512(front + [i])) == 0;
      forall i: nat | i < at
        ensures FromBE(DigestOf(sha512, seed, i)) == 0
      {
        assert FromBE(sha512(front + [i])) == 0;
      }
      assert FirstNonzero(sha512, seed, at, d);
    }
  }

  datatype Derivation<+P> =
    | SeedSizePanic
    | NoScalarPanic
    | KeyPair(public: P, secret: nat)

  /**
   The retry loop. `counter` is a byte that is never advanced past 255, as in an inclusive
   Rust range, so it cannot wrap.
   */
  method DeriveKeypairFromSeed<P(!new)>(c: Curve<P>, sha512: Sha512, seed: seq<byte>)
    returns (result: Derivation<P>)
    requires OrderLaws(c.order) && LawfulSha512(sha512)
    ensures result.SeedSizePanic? <==> |seed| != SEED_SIZE
    ensures |seed| == SEED_SIZE ==>
              match FirstScalar(sha512, seed, 0)
              case None => result == NoScalarPanic
              case Some(d) =>
                && result == KeyPair(PublicPoint(c, d), d)
                && 0 < d < Pow256(64) < c.order
                && FirstDigestValue(sha512, seed, d)
    ensures result.NoScalarPanic? <==>
              |seed| == SEED_SIZE && forall i: nat | i < 256 :: FromBE(DigestOf(sha512, seed, i)) == 0
  {
    hide Prime, FromBE, Pow256, PublicPoint, FirstDigestValue;
    if |seed| != SEED_SIZE {
      return SeedSizePanic;
    }
    ghost var expected := FirstScalar(sha512, seed, 0);
    FirstScalarExact(sha512, seed, 0, expected.UnwrapOr(0));
    FirstScalarBytes(sha512, seed, expected.UnwrapOr(0));
    var counter: byte, done := 0, false;
    while !done
      invariant FirstScalar(sha512, seed, if done then 256 else counter) == expected
      decreases 256 - counter, !done
    {
      var digest := sha512(PREFIX + seed + [counter]);
      assert DigestAt(sha512, PREFIX + seed + [counter]);
      PaddedDigest(c, digest);
      var scalarBytes := [0, 0] + digest;
      var secret := SecretFromSlice(c, scalarBytes);
      if secret.Some? {
        return KeyPair(PublicPoint(c, secret.value), secret.value);
      }
      if counter == 255 {
        done := true;
      } else {
        counter := counter + 1;
      }
    }
    return NoScalarPanic;
  }
}
