/**
 Child seeds along a hardened path and per-curve seeds (src/hdwallet/derivation.rs). BIP-32,
 SHAKE-256 and HKDF are parameters: their code is not part of this model.
 */
module HdDerivation {
  import opened Outcomes
  import opened Bytes
  import opened PathText

  const CURVE_ID_P521: byte := 1
  const CURVE_ID_ED448: byte := 2

  /** The BIP-32 library: master key, hardened child, and the two halves of a node. */
  datatype Bip32<!K> = Bip32(
    master: seq<byte> -> Option<K>,
    child: (K, u32) -> Option<K>,
    privateKey: K -> seq<byte>,
    chainCode: K -> seq<byte>)

  datatype DeriveError = NotHardened(position: nat) | MasterKey | ChildNumber | ChildDerivation

  // ---- child numbers -----------------------------------------------------------

  /** `index & 0x7FFF_FFFF`. */
  function StripHardening(index: u32): u32 {
    index % HARDENED
  }

  /** `ChildNumber::new(raw, true)`: refused when the hardening bit is already set. */
  function HardenedChild(raw: u32): Option<u32> {
    if raw >= HARDENED then None else Some(raw + HARDENED)
  }

  /** Stripping and re-hardening gives every hardened index back, and hardens the others. */
  lemma Rehardened(index: u32)
    ensures HardenedChild(StripHardening(index))
         == Some(if index >= HARDENED then index else index + HARDENED)
  {
  }

  lemma TopBitAdds(w: bv32)
    requires w < 0x8000_0000
    ensures w as int < 0x8000_0000 && (w | 0x8000_0000) as int == w as int + 0x8000_0000
  {
  }

  lemma LowBits(w: bv32)
    ensures (w & 0x7FFF_FFFF) < 0x8000_0000
    ensures w == (w & 0x7FFF_FFFF) | 0x8000_0000 || w == w & 0x7FFF_FFFF
  {
  }

  /** A word, its low 31 bits and those with the top bit set, as integers. */
  lemma WordValues(w: bv32, low: bv32) returns (word: int, raw: int, hardened: int)
    requires low == w & 0x7FFF_FFFF
    ensures word == w as int && raw == low as int && hardened == (low | 0x8000_0000) as int
    ensures 0 <= raw < 0x8000_0000 && hardened == raw + 0x8000_0000 && (word == raw || word == hardened)
  {
    word, raw, hardened := w as int, low as int, (low | 0x8000_0000) as int;
    LowBits(w);
    TopBitAdds(low);
  }

  lemma StripIs(index: u32, raw: u32)
    requires raw < HARDENED && (index == raw || index == raw + HARDENED)
    ensures StripHardening(index) == raw && HardenedChild(raw) == Some(raw + HARDENED)
  {
  }

  /** On 32-bit words, masking is stripping and setting the top bit is hardening. */
  lemma RehardenedWord(w: bv32, low: bv32)
    requires low == w & 0x7FFF_FFFF
    ensures StripHardening(w as int) == low as int
    ensures HardenedChild(StripHardening(w as int)) == Some((low | 0x8000_0000) as int)
  {
    hide StripHardening, HardenedChild;
    var word, raw, hardened := WordValues(w, low);
    StripIs(word, raw);
  }

  // ---- derivation along a path ----------------------------------------------------

  function DeriveAlong<K>(b: Bip32<K>, key: K, path: seq<u32>): Result<K, DeriveError> {
    if path == [] then Ok(key)
    else
      match HardenedChild(StripHardening(path[0]))
      case None => Err(ChildNumber)
      case Some(n) =>
        match b.child(key, n)
        case None => Err(ChildDerivation)
        case Some(next) => DeriveAlong(b, next, path[1..])
  }

  function FirstUnhardened(path: seq<u32>, from: nat): Option<nat>
    requires from <= |path|
    decreases |path| - from
  {
    if from == |path| then None
    else if path[from] < HARDENED then Some(from)
    else FirstUnhardened(path, from + 1)
  }

  function ChildSeed<K>(b: Bip32<K>, masterSeed: seq<byte>, path: seq<u32>): Result<seq<byte>, DeriveError> {
    match FirstUnhardened(path, 0)
    case Some(i) => Err(NotHardened(i))
    case None =>
      match b.master(masterSeed)
      case None => Err(MasterKey)
      case Some(key) =>
        var leaf :- DeriveAlong(b, key, path);
        Ok(b.privateKey(leaf) + b.chainCode(leaf))
  }

  method DeriveChildSeed<K>(b: Bip32<K>, masterSeed: seq<byte>, path: seq<u32>)
    returns (result: Result<seq<byte>, DeriveError>)
    ensures result == ChildSeed(b, masterSeed, path)
  {
    var i := 0;
    while i < |path|
      invariant i <= |path| && FirstUnhardened(path, i) == FirstUnhardened(path, 0)
    {
      if path[i] < HARDENED {
        return Err(NotHardened(i));
      }
      i := i + 1;
    }
    var master := b.master(masterSeed);
    if master == None {
      return Err(MasterKey);
    }
    var key := master.value;
    i := 0;
    while i < |path|
      invariant i <= |path|
      invariant DeriveAlong(b, key, path[i..]) == DeriveAlong(b, master.value, path)
    {
      var rawIndex := StripHardening(path[i]);
      var childNumber := HardenedChild(rawIndex);
      if childNumber == None {
        return Err(ChildNumber);
      }
      var child := b.child(key, childNumber.value);
      if child == None {
        return Err(ChildDerivation);
      }
      assert path[i..][1..] == path[i + 1..];
      key := child.value;
      i := i + 1;
    }
    result := Ok(b.privateKey(key) + b.chainCode(key));
  }

  // ---- what the checks guarantee ------------------------------------------------------

  lemma {:induction false} FirstUnhardenedExact(path: seq<u32>, from: nat, at: nat)
    requires from <= |path| && forall j | 0 <= j < from :: path[j] >= HARDENED
    ensures FirstUnhardened(path, from) == Some(at) <==>
              at < |path| && path[at] < HARDENED && forall j | 0 <= j < at :: path[j] >= HARDENED
    ensures FirstUnhardened(path, from) == None <==> forall j | 0 <= j < |path| :: path[j] >= HARDENED
    decreases |path| - from
  {
    if from == |path| || path[from] < HARDENED {
    } else {
      FirstUnhardenedExact(path, from + 1, at);
    }
  }

  /** Masking to 31 bits always leaves a number `ChildNumber::new` accepts. */
  lemma {:induction false} OnlyLibraryErrors<K>(b: Bip32<K>, key: K, path: seq<u32>)
    ensures DeriveAlong(b, key, path).Ok? || DeriveAlong(b, key, path) == Err(ChildDerivation)
  {
    if path == [] {
    } else {
      Rehardened(path[0]);
      var next := b.child(key, HardenedChild(StripHardening(path[0])).value);
      if next.Some? {
        OnlyLibraryErrors(b, next.value, path[1..]);
      }
    }
  }

  /** The hardened-only policy is exact, names the first offender, and precedes the master key. */
  lemma HardenedOnly<K>(b: Bip32<K>, masterSeed: seq<byte>, path: seq<u32>, at: nat)
    ensures ChildSeed(b, masterSeed, path) == Err(NotHardened(at)) <==>
              at < |path| && path[at] < HARDENED && forall j | 0 <= j < at :: path[j] >= HARDENED
  {
    FirstUnhardenedExact(path, 0, at);
    var first := FirstUnhardened(path, 0);
    if first == None && b.master(masterSeed).Some? {
      OnlyLibraryErrors(b, b.master(masterSeed).value, path);
    }
  }

  /** The node at the end of hardened indices, each used as it stands. */
  function Node<K>(b: Bip32<K>, key: Option<K>, path: seq<u32>): Option<K>
    decreases path
  {
    if key == None || path == [] then key
    else Node(b, b.child(key.value, path[0]), path[1..])
  }

  lemma {:induction false} AlongHardened<K>(b: Bip32<K>, key: K, path: seq<u32>)
    requires forall j | 0 <= j < |path| :: path[j] >= HARDENED
    ensures match Node(b, Some(key), path)
            case None => DeriveAlong(b, key, path) == Err(ChildDerivation)
            case Some(leaf) => DeriveAlong(b, key, path) == Ok(leaf)
  {
    if path == [] {
    } else {
      Rehardened(path[0]);
      var next := b.child(key, path[0]);
      if next.Some? {
        AlongHardened(b, next.value, path[1..]);
      }
    }
  }

  /** Deriving along two paths in turn is deriving along their concatenation. */
  lemma {:induction false} NodeCompose<K>(b: Bip32<K>, key: Option<K>, p: seq<u32>, q: seq<u32>)
    ensures Node(b, key, p + q) == Node(b, Node(b, key, p), q)
    decreases p
  {
    if key == None || p == [] {
      assert p == [] ==> p + q == q;
    } else {
      assert (p + q)[1..] == p[1..] + q;
      NodeCompose(b, b.child(key.value, p[0]), p[1..], q);
    }
  }

  /**
   A parsed path always passes the hardened check, and the seed is that of the node reached by
   the parsed indices themselves.
   */
  lemma ParsedPathDerives<K>(b: Bip32<K>, masterSeed: seq<byte>, text: string)
    requires ParseHardenedPath(text).Ok?
    ensures var path := ParseHardenedPath(text).value;
            var reached := Node(b, b.master(masterSeed), path);
            var seed := ChildSeed(b, masterSeed, path);
            if b.master(masterSeed) == None then seed == Err(MasterKey)
            else if reached == None then seed == Err(ChildDerivation)
            else seed == Ok(b.privateKey(reached.value) + b.chainCode(reached.value))
  {
    hide ParseHardenedPath;
    ParsedIsHardened(text);
    var path := ParseHardenedPath(text).value;
    FirstUnhardenedExact(path, 0, 0);
    if b.master(masterSeed).Some? {
      AlongHardened(b, b.master(masterSeed).value, path);
    }
  }

  // ---- per-curve seeds -------------------------------------------------------------------

  /** SHAKE-256 over the master seed and the curve id, then HKDF; None is HKDF refusing the length. */
  function CurveSeed(shake: (seq<byte>, nat) -> seq<byte>, hkdf: (seq<byte>, nat) -> Option<seq<byte>>,
                     mdeccSeed: seq<byte>, curveId: byte, seedSize: nat): Result<seq<byte>, CryptoError> {
    match hkdf(shake(mdeccSeed + [curveId], 32), seedSize)
    case None => Err(Custom)
    case Some(output) => Ok(output)
  }

  /** Distinct inputs on which a function of bytes agrees. */
  predicate Collide<T(==)>(f: seq<byte> -> T, x: seq<byte>, y: seq<byte>) {
    x != y && f(x) == f(y)
  }

  /**
   Curve seeds are separated by master seed and curve id: one seed for two such pairs means equal
   pairs, or SHAKE-256 on the two inputs with the id behind the master seed collides, or HKDF does.
   */
  lemma CurveSeedsSeparate(shake: (seq<byte>, nat) -> seq<byte>, hkdf: (seq<byte>, nat) -> Option<seq<byte>>,
                           m1: seq<byte>, id1: byte, m2: seq<byte>, id2: byte, n: nat)
    requires CurveSeed(shake, hkdf, m1, id1, n).Ok?
    requires CurveSeed(shake, hkdf, m1, id1, n) == CurveSeed(shake, hkdf, m2, id2, n)
    ensures || (m1 == m2 && id1 == id2)
            || Collide(x => shake(x, 32), m1 + [id1], m2 + [id2])
            || Collide(x => hkdf(x, n), shake(m1 + [id1], 32), shake(m2 + [id2], 32))
  {
    var s1, s2 := m1 + [id1], m2 + [id2];
    if s1 == s2 {
      assert m1 == s1[..|s1| - 1] && id1 == s1[|s1| - 1];
      assert m2 == s2[..|s2| - 1] && id2 == s2[|s2| - 1];
    }
  }
}
