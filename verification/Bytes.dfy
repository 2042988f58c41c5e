/**
 Byte strings as numbers: minimal big-endian form (RLP integers), fixed-width big-endian
 form (ECDSA scalars, chain ids) and little-endian form (Ed448 coordinates and scalars).
 */
module Bytes {

  type byte = b: int | 0 <= b < 256

  /** 256 to the power n. */
  function Pow256(n: nat): (p: nat)
    ensures p > 0
  {
    if n == 0 then 1 else 256 * Pow256(n - 1)
  }

  function FromBE(s: seq<byte>): nat {
    if s == [] then 0 else 256 * FromBE(s[..|s| - 1]) + s[|s| - 1]
  }

  /** The shortest big-endian form; zero is the empty string. */
  function ToBE(n: nat): seq<byte> {
    if n == 0 then [] else ToBE(n / 256) + [n % 256]
  }

  /** Big-endian form of exactly `len` bytes (the value modulo 256^len). */
  function ToFixedBE(n: nat, len: nat): (s: seq<byte>)
    ensures |s| == len
  {
    if len == 0 then [] else ToFixedBE(n / 256, len - 1) + [n % 256]
  }

  function FromLE(s: seq<byte>): nat {
    if s == [] then 0 else s[0] + 256 * FromLE(s[1..])
  }

  /** Little-endian form of exactly `len` bytes (the value modulo 256^len). */
  function ToLE(n: nat, len: nat): (s: seq<byte>)
    ensures |s| == len
  {
    if len == 0 then [] else [n % 256] + ToLE(n / 256, len - 1)
  }

  // ---- powers -------------------------------------------------------------

  lemma {:induction false} Pow256Add(a: nat, b: nat)
    ensures Pow256(a + b) == Pow256(a) * Pow256(b)
  {
    if a == 0 {
    } else {
      Pow256Add(a - 1, b);
      assert 256 * Pow256(a - 1) * Pow256(b) == 256 * (Pow256(a - 1) * Pow256(b));
    }
  }

  lemma PowStep(n: nat)
    ensures Pow256(n + 1) == 256 * Pow256(n)
  {
  }

  lemma {:induction false} Pow256Monotonic(a: nat, b: nat)
    requires a <= b
    ensures Pow256(a) <= Pow256(b)
  {
    if a == b {
    } else {
      Pow256Monotonic(a, b - 1);
    }
  }

  /** The widths the repository uses, as the powers of two it names. */
  lemma Widths()
    ensures Pow256(8) == 0x1_0000_0000_0000_0000
    ensures Pow256(28) == 0x1_00000000_00000000_00000000_00000000_00000000_00000000_00000000
    ensures Pow256(32) == 0x1_00000000_00000000_00000000_00000000_00000000_00000000_00000000_00000000
    ensures Pow256(56) == Pow256(28) * Pow256(28)
    ensures Pow256(64) == Pow256(32) * Pow256(32)
  {
    assert Pow256(4) == 0x1_0000_0000 by {
      assert Pow256(2) == 256 * Pow256(1);
      assert Pow256(3) == 256 * Pow256(2);
    }
    Pow256Add(4, 4);
    Pow256Add(8, 8);
    Pow256Add(16, 8);
    Pow256Add(24, 4);
    Pow256Add(28, 4);
    Pow256Add(28, 28);
    Pow256Add(32, 32);
  }

  // ---- minimal big-endian form -------------------------------------------

  lemma {:induction false} FromToBE(n: nat)
    ensures FromBE(ToBE(n)) == n
    ensures n > 0 ==> |ToBE(n)| > 0 && ToBE(n)[0] != 0
  {
    if n == 0 {
    } else {
      FromToBE(n / 256);
      var s := ToBE(n);
      assert s[..|s| - 1] == ToBE(n / 256);
    }
  }

  lemma {:induction false} ToFromBE(s: seq<byte>)
    requires s != [] ==> s[0] != 0
    ensures ToBE(FromBE(s)) == s
    ensures s != [] ==> FromBE(s) > 0
  {
    if s == [] {
    } else {
      var front := s[..|s| - 1];
      ToFromBE(front);
      var n := FromBE(s);
      assert n / 256 == FromBE(front) && n % 256 == s[|s| - 1];
      assert s == front + [s[|s| - 1]];
    }
  }

  lemma {:induction false} BEBound(s: seq<byte>)
    ensures FromBE(s) < Pow256(|s|)
  {
    if s == [] {
    } else {
      BEBound(s[..|s| - 1]);
    }
  }

  /** A number fits in k bytes exactly when its minimal form has at most k bytes. */
  lemma {:induction false} BELength(n: nat, k: nat)
    ensures n < Pow256(k) <==> |ToBE(n)| <= k
  {
    if n == 0 || k == 0 {
    } else {
      BELength(n / 256, k - 1);
    }
  }

  // ---- fixed-width forms ---------------------------------------------------

  lemma {:induction false} FromToFixedBE(n: nat, len: nat)
    requires n < Pow256(len)
    ensures FromBE(ToFixedBE(n, len)) == n
  {
    if len == 0 {
    } else {
      FromToFixedBE(n / 256, len - 1);
      var s := ToFixedBE(n, len);
      assert s[..|s| - 1] == ToFixedBE(n / 256, len - 1);
    }
  }

  lemma {:induction false} ToFixedFromBE(s: seq<byte>)
    ensures ToFixedBE(FromBE(s), |s|) == s
  {
    if s == [] {
    } else {
      var front := s[..|s| - 1];
      ToFixedFromBE(front);
      var n := FromBE(s);
      assert n / 256 == FromBE(front) && n % 256 == s[|s| - 1];
      assert s == front + [s[|s| - 1]];
    }
  }

  /** Leading zero bytes do not change a big-endian value. */
  lemma {:induction false} BELeadingZero(s: seq<byte>)
    ensures FromBE([0] + s) == FromBE(s)
  {
    if s == [] {
      assert ([0] + s)[..0] == [];
    } else {
      BELeadingZero(s[..|s| - 1]);
      assert ([0] + s)[..|s|] == [0] + s[..|s| - 1];
    }
  }

  lemma {:induction false} FromToLE(n: nat, len: nat)
    requires n < Pow256(len)
    ensures FromLE(ToLE(n, len)) == n
  {
    if len == 0 {
    } else {
      FromToLE(n / 256, len - 1);
      assert ToLE(n, len)[1..] == ToLE(n / 256, len - 1);
    }
  }

  lemma {:induction false} ToFromLE(s: seq<byte>)
    ensures ToLE(FromLE(s), |s|) == s
  {
    if s == [] {
    } else {
      ToFromLE(s[1..]);
      var n := FromLE(s);
      assert n / 256 == FromLE(s[1..]) && n % 256 == s[0];
      assert s == [s[0]] + s[1..];
    }
  }

  lemma {:induction false} LEBound(s: seq<byte>)
    ensures FromLE(s) < Pow256(|s|)
  {
    if s == [] {
    } else {
      LEBound(s[1..]);
    }
  }

  lemma LEHead(s: seq<byte>)
    requires s != []
    ensures FromLE(s) == s[0] as int + 256 * FromLE(s[1..])
  {
  }

  lemma LEEmpty()
    ensures FromLE([]) == 0
  {
  }

  lemma ScaleBy256(a: nat, x: nat)
    ensures (256 * a) * x == 256 * (a * x)
  {
  }

  /** Splitting a little-endian string at i. */
  lemma {:induction false} LESplit(s: seq<byte>, i: nat)
    requires i <= |s|
    ensures FromLE(s) == FromLE(s[..i]) + Pow256(i) * FromLE(s[i..])
  {
    hide FromLE;
    if i == 0 {
      assert s[0..] == s && s[..0] == [];
      assert FromLE(s[..0]) == 0 by { LEEmpty(); }
    } else {
      LESplit(s[1..], i - 1);
      assert s[1..][..i - 1] == s[..i][1..];
      assert s[1..][i - 1..] == s[i..];
      LEHead(s);
      LEHead(s[..i]);
      ScaleBy256(Pow256(i - 1), FromLE(s[i..]));
    }
  }
}
