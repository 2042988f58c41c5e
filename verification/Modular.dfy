/** Residues modulo a positive number, primes, and inverses modulo a prime. */
module Modular {

  type pos = n: int | n > 0 witness 1

  predicate Divides(d: nat, n: nat) {
    d > 0 && n % d == 0
  }

  ghost predicate Prime(p: nat) {
    2 <= p && forall d: nat | 2 <= d < p :: !Divides(d, p)
  }

  lemma MultipleOutside(k: int, n: int)
    requires n > 0
    ensures k >= 1 ==> k * n >= n
    ensures k <= -1 ==> k * n <= -n
  {
  }

  lemma ModIs(x: int, q: int, r: nat, n: nat)
    requires r < n && x == q * n + r
    ensures x % n == r && x / n == q
  {
    var k := x / n - q;
    assert x == n * (x / n) + x % n;
    assert k * n == r - x % n;
    MultipleOutside(k, n);
  }

  lemma ModAddMultiple(x: int, k: int, n: nat)
    requires n > 0
    ensures (x + k * n) % n == x % n
  {
    assert x == n * (x / n) + x % n;
    assert x + k * n == (x / n + k) * n + x % n;
    ModIs(x + k * n, x / n + k, x % n, n);
  }

  lemma ModAdd(a: int, b: int, n: nat)
    requires n > 0
    ensures (a % n + b) % n == (a + b) % n
  {
    ModAddMultiple(a % n + b, a / n, n);
    assert a == n * (a / n) + a % n;
  }

  lemma ModMul(a: int, b: int, n: nat)
    requires n > 0
    ensures ((a % n) * b) % n == (a * b) % n
  {
    ModAddMultiple((a % n) * b, (a / n) * b, n);
    assert a == n * (a / n) + a % n;
    assert (n * (a / n) + a % n) * b == (a % n) * b + ((a / n) * b) * n;
  }

  /** Two numbers below n with the same residue difference are equal. */
  lemma ModEqual(a: nat, b: nat, n: nat)
    requires a < n && b < n && (a - b) % n == 0
    ensures a == b
  {
    var k := (a - b) / n;
    assert a - b == k * n;
    MultipleOutside(k, n);
  }

  lemma ModDifference(a: int, b: int, n: nat)
    requires n > 0
    ensures (a - b) % n == 0 <==> a % n == b % n
  {
    var k := a / n - b / n;
    assert a - b == k * n + (a % n - b % n);
    if a % n == b % n {
      ModIs(a - b, k, 0, n);
    } else if (a - b) % n == 0 {
      ModAddMultiple(a % n - b % n, k, n);
      ModEqual(a % n, b % n, n);
    }
  }

  lemma InverseIdentity(n: nat, a: nat, q: nat, b: nat, u: nat)
    requires n == a * q + b && a > 0
    ensures q <= n
    ensures a * ((n - q) * u) == b * u + (a * u - u) * n
  {
    assert a * (n - q) == a * n - (n - b);
    var m := n - q;
    assert a * (m * u) == (a * m) * u;
    assert (a * n - (n - b)) * u == (a * n) * u - n * u + b * u;
    assert (a * u - u) * n == (a * n) * u - n * u;
  }

  lemma InverseStep(n: nat, a: nat, u: nat)
    requires 2 <= a < n && ((n % a) * u) % n == 1
    ensures n / a <= n
    ensures var w := ((n - n / a) * u) % n;
            0 < w < n && (a * w) % n == 1
  {
    var q, b := n / a, n % a;
    assert n == a * q + b;
    var t := (n - q) * u;
    InverseIdentity(n, a, q, b, u);
    ModAddMultiple(b * u, a * u - u, n);
    ModMul(t, a, n);
    assert (t % n) * a == a * (t % n) && t * a == a * t;
    var z := t % n;
    assert z == 0 ==> a * z == 0;
  }

  /**
   The inverse modulo a prime, by the descent n mod a < a: n mod a is -(n div a) * a modulo n.
   */
  ghost function InvMod(n: nat, a: nat): (w: nat)
    requires Prime(n) && 0 < a < n
    ensures 0 < w < n && (a * w) % n == 1
    decreases a
  {
    if a == 1 then
      assert 1 % n == 1;
      1
    else
      assert !Divides(a, n);
      var u := InvMod(n, n % a);
      var w := ((n - n / a) * u) % n;
      InverseStep(n, a, u);
      w
  }

  lemma TimesOne(x: int, i: nat, n: nat)
    requires i < n && x % n == 1
    ensures (x * i) % n == i
  {
    ModMul(x, i, n);
  }

  /** Inverses are unique: w = (s * i) * w = (s * w) * i = i, all modulo n. */
  lemma TwoInverses(n: nat, s: nat, w: nat, i: nat)
    requires w < n && i < n && (s * w) % n == 1 && (s * i) % n == 1
    ensures w == i
  {
    TimesOne(s * i, w, n);
    TimesOne(s * w, i, n);
    assert (s * i) * w == (s * w) * i;
  }

  lemma ModSmall(a: nat, n: pos)
    requires a < n
    ensures a % n == a
  {
    ModIs(a, 0, a, n);
  }

  lemma ModIdempotent(a: int, n: pos)
    ensures (a % n) % n == a % n
  {
    ModIs(a % n, 0, a % n, n);
  }

  /** A multiple of a multiple of n is a multiple of n. */
  lemma MultipleOfMultiple(k: int, m: nat, n: pos)
    requires k % n == 0
    ensures (m * k) % n == 0
  {
    var q := k / n;
    assert k == q * n;
    assert m * k == (m * q) * n + 0;
    ModIs(m * k, m * q, 0, n);
  }

  lemma HalfQuotient(k: int, q: int, n: int, t: int)
    requires 2 * k == q * n && q * n == 2 * t + q
    ensures k == (q / 2) * n + 0
  {
    assert q == 2 * (k - t);
    var h := q / 2;
    assert q == 2 * h;
    assert (2 * h) * n == 2 * (h * n);
  }

  lemma OddCancelsTwo(n: pos, k: int)
    requires n % 2 == 1 && (2 * k) % n == 0
    ensures k % n == 0
  {
    var q := (2 * k) / n;
    assert 2 * k == q * n;
    var h := n / 2;
    assert n == 2 * h + 1;
    assert q * n == 2 * (q * h) + q;
    HalfQuotient(k, q, n, q * h);
    ModIs(k, q / 2, 0, n);
  }

  /** An odd n divides 4k exactly when it divides k. */
  lemma OddIgnoresFour(n: pos, k: int)
    requires n % 2 == 1
    ensures (4 * k) % n == 0 <==> k % n == 0
  {
    if (4 * k) % n == 0 {
      assert 4 * k == 2 * (2 * k);
      OddCancelsTwo(n, 2 * k);
      OddCancelsTwo(n, k);
    }
    if k % n == 0 {
      MultipleOfMultiple(k, 4, n);
    }
  }

  lemma CongruentFour(a: nat, b: nat, n: pos)
    requires n % 2 == 1
    ensures (4 * a) % n == (4 * b) % n <==> a % n == b % n
  {
    ModDifference(4 * a, 4 * b, n);
    ModDifference(a, b, n);
    assert 4 * a - 4 * b == 4 * (a - b);
    OddIgnoresFour(n, a - b);
  }

  /** An odd n times 1, 2, 3, 5, 6 or 7 is no multiple of four. */
  lemma SmallQuotient(q: nat, n: pos, a: nat)
    requires 0 < q < 8 && n % 2 == 1 && a % 4 == 0 && a == q * n
    ensures q == 4
  {
    var m := n / 2;
    assert q == 1 || q == 2 || q == 3 || q == 4 || q == 5 || q == 6 || q == 7;
    assert n == 2 * m + 1 && a == 4 * (a / 4);
  }

  /** Of the multiples of four from half to 2 * half only 4n is a multiple of an odd n, when 4n lies there. */
  lemma FourfoldMultiple(n: pos, a: nat, half: pos)
    requires n % 2 == 1 && half < 4 * n < 2 * half
    requires a % 4 == 0 && half <= a < 2 * half
    ensures a % n == 0 <==> a == 4 * n
  {
    if a == 4 * n {
      ModIs(a, 4, 0, n);
    }
    if a % n == 0 {
      var q := a / n;
      assert a == q * n;
      assert q * n == 7 * n + (q - 7) * n;
      MultipleOutside(q - 7, n);
      SmallQuotient(q, n, a);
    }
  }

  /** An odd n has an inverse of four: (n + 1)/4 or (3n + 1)/4. */
  lemma QuarterOfOne(n: pos) returns (w: nat)
    requires n % 2 == 1
    ensures 4 * w == n + 1 || 4 * w == 3 * n + 1
  {
    var h := n / 2;
    assert n == 2 * h + 1;
    var t := h / 2;
    if h == 2 * t {
      w := 3 * t + 1;
    } else {
      assert h == 2 * t + 1;
      w := t + 1;
    }
  }

  lemma QuarterProduct(w: nat, m: nat, n: pos, q: nat)
    requires 4 * w == q * n + 1
    ensures (w * m) * 4 == m + (q * m) * n
  {
    assert (w * m) * 4 == (4 * w) * m;
    assert (q * n + 1) * m == (q * m) * n + m;
  }

  /** Modulo an odd n every number is four times a reduced one. */
  lemma QuarterOf(m: nat, n: pos) returns (s: nat)
    requires n % 2 == 1
    ensures s < n && (4 * s) % n == m % n
  {
    var w := QuarterOfOne(n);
    var q := if 4 * w == n + 1 then 1 else 3;
    QuarterProduct(w, m, n, q);
    s := (w * m) % n;
    ModMul(w * m, 4, n);
    ModAddMultiple(m, q * m, n);
  }
}
