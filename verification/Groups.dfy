/**
 An abstract commutative group and multiples of its elements. The group laws are
 hypotheses about the curve libraries, whose formulas are not part of this model.
 */
module Groups {
  import opened Modular

  datatype Group<!P> = Group(zero: P, add: (P, P) -> P, neg: P -> P)

  // Each law is a predicate on its points, so that it is used only where a lemma names it.

  predicate AssocAt<P(==)>(g: Group<P>, a: P, b: P, c: P) {
    g.add(g.add(a, b), c) == g.add(a, g.add(b, c))
  }

  predicate CommAt<P(==)>(g: Group<P>, a: P, b: P) {
    g.add(a, b) == g.add(b, a)
  }

  predicate UnitAt<P(==)>(g: Group<P>, a: P) {
    g.add(g.zero, a) == a
  }

  predicate InverseAt<P(==)>(g: Group<P>, a: P) {
    g.add(a, g.neg(a)) == g.zero
  }

  ghost predicate IsGroup<P(!new)>(g: Group<P>) {
    && (forall a, b, c :: AssocAt(g, a, b, c))
    && (forall a, b :: CommAt(g, a, b))
    && (forall a :: UnitAt(g, a))
    && (forall a :: InverseAt(g, a))
  }

  /** [n]P, by repeated addition. */
  function Mul<P>(g: Group<P>, n: nat, p: P): P {
    if n == 0 then g.zero else g.add(p, Mul(g, n - 1, p))
  }

  // ---- the laws as lemmas ---------------------------------------------------

  lemma Assoc<P(!new)>(g: Group<P>, a: P, b: P, c: P)
    requires IsGroup(g)
    ensures g.add(g.add(a, b), c) == g.add(a, g.add(b, c))
  {
    assert AssocAt(g, a, b, c);
  }

  lemma Comm<P(!new)>(g: Group<P>, a: P, b: P)
    requires IsGroup(g)
    ensures g.add(a, b) == g.add(b, a)
  {
    assert CommAt(g, a, b);
  }

  lemma Unit<P(!new)>(g: Group<P>, a: P)
    requires IsGroup(g)
    ensures g.add(g.zero, a) == a && g.add(a, g.zero) == a
  {
    assert UnitAt(g, a);
    Comm(g, a, g.zero);
  }

  lemma Inverse<P(!new)>(g: Group<P>, a: P)
    requires IsGroup(g)
    ensures g.add(a, g.neg(a)) == g.zero && g.add(g.neg(a), a) == g.zero
  {
    assert InverseAt(g, a);
    Comm(g, a, g.neg(a));
  }

  lemma CancelLeft<P(!new)>(g: Group<P>, a: P, b: P, c: P)
    requires IsGroup(g) && g.add(a, b) == g.add(a, c)
    ensures b == c
  {
    Assoc(g, g.neg(a), a, b);
    Assoc(g, g.neg(a), a, c);
    Inverse(g, a);
    Unit(g, b);
    Unit(g, c);
  }

  /** (a + b) + (c + d) = (a + c) + (b + d). */
  lemma Exchange<P(!new)>(g: Group<P>, a: P, b: P, c: P, d: P)
    requires IsGroup(g)
    ensures g.add(g.add(a, b), g.add(c, d)) == g.add(g.add(a, c), g.add(b, d))
  {
    Assoc(g, a, b, g.add(c, d));
    Assoc(g, b, c, d);
    Comm(g, b, c);
    Assoc(g, c, b, d);
    Assoc(g, a, c, g.add(b, d));
  }

  lemma NegUnique<P(!new)>(g: Group<P>, a: P, b: P)
    requires IsGroup(g) && g.add(a, b) == g.zero
    ensures b == g.neg(a)
  {
    Inverse(g, a);
    CancelLeft(g, a, b, g.neg(a));
  }

  lemma NegOfNeg<P(!new)>(g: Group<P>, a: P)
    requires IsGroup(g)
    ensures g.neg(g.neg(a)) == a
  {
    Inverse(g, a);
    NegUnique(g, g.neg(a), a);
  }

  lemma NegOfSum<P(!new)>(g: Group<P>, a: P, b: P)
    requires IsGroup(g)
    ensures g.neg(g.add(a, b)) == g.add(g.neg(a), g.neg(b))
  {
    Exchange(g, a, b, g.neg(a), g.neg(b));
    Inverse(g, a);
    Inverse(g, b);
    Unit(g, g.zero);
    NegUnique(g, g.add(a, b), g.add(g.neg(a), g.neg(b)));
  }

  /** a - b = O exactly when a = b. */
  lemma DifferenceZero<P(!new)>(g: Group<P>, a: P, b: P)
    requires IsGroup(g)
    ensures g.add(a, g.neg(b)) == g.zero <==> a == b
  {
    Inverse(g, b);
    if g.add(a, g.neg(b)) == g.zero {
      Comm(g, a, g.neg(b));
      NegUnique(g, g.neg(b), a);
      NegOfNeg(g, b);
    }
  }

  // ---- multiples --------------------------------------------------------------

  lemma MulOne<P(!new)>(g: Group<P>, p: P)
    requires IsGroup(g)
    ensures Mul(g, 1, p) == p
  {
    Unit(g, p);
    assert Mul(g, 0, p) == g.zero;
  }

  lemma {:induction false} MulAdd<P(!new)>(g: Group<P>, m: nat, n: nat, p: P)
    requires IsGroup(g)
    ensures Mul(g, m + n, p) == g.add(Mul(g, m, p), Mul(g, n, p))
  {
    if m == 0 {
      Unit(g, Mul(g, n, p));
    } else {
      MulAdd(g, m - 1, n, p);
      Assoc(g, p, Mul(g, m - 1, p), Mul(g, n, p));
    }
  }

  lemma {:induction false} MulOfSum<P(!new)>(g: Group<P>, n: nat, p: P, q: P)
    requires IsGroup(g)
    ensures Mul(g, n, g.add(p, q)) == g.add(Mul(g, n, p), Mul(g, n, q))
  {
    if n == 0 {
      Unit(g, g.zero);
    } else {
      MulOfSum(g, n - 1, p, q);
      Exchange(g, p, q, Mul(g, n - 1, p), Mul(g, n - 1, q));
    }
  }

  lemma {:induction false} MulOfZero<P(!new)>(g: Group<P>, n: nat)
    requires IsGroup(g)
    ensures Mul(g, n, g.zero) == g.zero
  {
    if n == 0 {
    } else {
      MulOfZero(g, n - 1);
      Unit(g, g.zero);
    }
  }

  lemma MulOfNeg<P(!new)>(g: Group<P>, n: nat, p: P)
    requires IsGroup(g)
    ensures Mul(g, n, g.neg(p)) == g.neg(Mul(g, n, p))
  {
    MulOfSum(g, n, p, g.neg(p));
    Inverse(g, p);
    MulOfZero(g, n);
    NegUnique(g, Mul(g, n, p), Mul(g, n, g.neg(p)));
  }

  lemma {:induction false} MulMul<P(!new)>(g: Group<P>, m: nat, n: nat, p: P)
    requires IsGroup(g)
    ensures Mul(g, m * n, p) == Mul(g, m, Mul(g, n, p))
  {
    if m == 0 {
      assert m * n == 0;
    } else {
      MulMul(g, m - 1, n, p);
      assert m * n == n + (m - 1) * n;
      MulAdd(g, n, (m - 1) * n, p);
    }
  }

  /** The order of the two factors does not matter. */
  lemma MulSwap<P(!new)>(g: Group<P>, m: nat, n: nat, p: P)
    requires IsGroup(g)
    ensures Mul(g, m, Mul(g, n, p)) == Mul(g, n, Mul(g, m, p))
  {
    MulMul(g, m, n, p);
    MulMul(g, n, m, p);
    assert m * n == n * m;
  }

  /** If [n]P = O then multiples of P depend only on the residue modulo n. */
  lemma MulMod<P(!new)>(g: Group<P>, k: nat, n: nat, p: P)
    requires IsGroup(g) && n > 0 && Mul(g, n, p) == g.zero
    ensures Mul(g, k, p) == Mul(g, k % n, p)
  {
    var q, r := k / n, k % n;
    assert k == q * n + r;
    assert q * n >= 0;
    MulAdd(g, q * n, r, p);
    MulMul(g, q, n, p);
    MulOfZero(g, q);
    Unit(g, Mul(g, r, p));
  }

  /** [m]P = [n]P exactly when [m - n]P = O. */
  lemma MulDifference<P(!new)>(g: Group<P>, m: nat, n: nat, p: P)
    requires IsGroup(g) && m >= n
    ensures Mul(g, m, p) == Mul(g, n, p) <==> Mul(g, m - n, p) == g.zero
  {
    MulAdd(g, n, m - n, p);
    Unit(g, Mul(g, n, p));
    if Mul(g, m, p) == Mul(g, n, p) {
      CancelLeft(g, Mul(g, n, p), Mul(g, m - n, p), g.zero);
    }
  }

  /** [-a mod n]P = -[a]P when [n]P = O. */
  lemma MulNegMod<P(!new)>(g: Group<P>, a: nat, n: nat, p: P)
    requires IsGroup(g) && a <= n && Mul(g, n, p) == g.zero
    ensures Mul(g, n - a, p) == g.neg(Mul(g, a, p))
  {
    MulAdd(g, a, n - a, p);
    NegUnique(g, Mul(g, a, p), Mul(g, n - a, p));
  }

  // ---- elements of prime order ------------------------------------------------

  /**
   Nothing below a prime l kills an element that l kills, unless the element is O:
   if [m]P = O then [l mod m]P = O, and l mod m is not zero.
   */
  lemma {:induction false} NoSmallAnnihilator<P(!new)>(g: Group<P>, l: nat, m: nat, p: P)
    requires IsGroup(g) && Prime(l) && Mul(g, l, p) == g.zero && p != g.zero
    requires 0 < m < l
    ensures Mul(g, m, p) != g.zero
    decreases m
  {
    if m == 1 {
      MulOne(g, p);
    } else if Mul(g, m, p) == g.zero {
      assert !Divides(m, l);
      MulMod(g, l, m, p);
      NoSmallAnnihilator(g, l, l % m, p);
    }
  }

  /** In prime order l, [k]P = O exactly when l divides k. */
  lemma PrimeOrder<P(!new)>(g: Group<P>, l: nat, k: nat, p: P)
    requires IsGroup(g) && Prime(l) && Mul(g, l, p) == g.zero && p != g.zero
    ensures Mul(g, k, p) == g.zero <==> k % l == 0
  {
    MulMod(g, k, l, p);
    if k % l != 0 {
      NoSmallAnnihilator(g, l, k % l, p);
    }
  }

  /** In prime order l, [m]P = [n]P exactly when m and n are congruent modulo l. */
  lemma EqualMultiples<P(!new)>(g: Group<P>, l: nat, m: nat, n: nat, p: P)
    requires IsGroup(g) && Prime(l) && Mul(g, l, p) == g.zero && p != g.zero
    ensures Mul(g, m, p) == Mul(g, n, p) <==> m % l == n % l
  {
    var hi, lo := if m >= n then m else n, if m >= n then n else m;
    MulDifference(g, hi, lo, p);
    PrimeOrder(g, l, hi - lo, p);
    ModDifference(hi, lo, l);
  }
}
