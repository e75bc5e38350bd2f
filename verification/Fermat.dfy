/** Fermat's little theorem, by expanding (a + 1)^p. */
module Fermat {
  import opened NumberTheory

  function Choose(n: nat, k: nat): nat {
    if k == 0 then 1 else if n == 0 then 0 else Choose(n - 1, k) + Choose(n - 1, k - 1)
  }

  lemma {:induction false} ChooseBeyond(n: nat, k: nat)
    requires k > n
    ensures Choose(n, k) == 0
  {
    if n > 0 {
      ChooseBeyond(n - 1, k);
      ChooseBeyond(n - 1, k - 1);
    }
  }

  lemma {:induction false} ChooseAll(n: nat)
    ensures Choose(n, n) == 1
  {
    if n > 0 {
      ChooseAll(n - 1);
      ChooseBeyond(n - 1, n);
    }
  }

  /** k * C(n, k) == n * C(n - 1, k - 1). */
  lemma {:induction false} Absorb(n: nat, k: nat)
    requires n > 0 && k > 0
    ensures k * Choose(n, k) == n * Choose(n - 1, k - 1)
    decreases n
  {
    if n == 1 {
      ChooseBeyond(0, k);
      if k > 1 {
        ChooseBeyond(0, k - 1);
      }
    } else if k == 1 {
      Absorb(n - 1, 1);
    } else {
      Absorb(n - 1, k);
      Absorb(n - 1, k - 1);
      AbsorbStep(n, k, Choose(n - 1, k), Choose(n - 1, k - 1), Choose(n - 2, k - 1), Choose(n - 2, k - 2));
    }
  }

  lemma AbsorbStep(n: nat, k: nat, a: nat, b: nat, c: nat, d: nat)
    requires k * a == (n - 1) * c && (k - 1) * b == (n - 1) * d && b == c + d
    ensures k * (a + b) == n * b
  {
    assert k * (a + b) == k * a + (k - 1) * b + b;
    assert (n - 1) * c + (n - 1) * d == (n - 1) * (c + d);
  }

  /** The first k terms of the expansion of (a + 1)^n. */
  ghost function Expansion(n: nat, a: int, k: nat): int {
    if k == 0 then 0 else Expansion(n, a, k - 1) + Choose(n, k - 1) * Pow(a, k - 1)
  }

  /** Pascal's rule, term by term. */
  lemma {:induction false} ExpansionStep(n: nat, a: int, k: nat)
    ensures Expansion(n + 1, a, k + 1) == Expansion(n, a, k + 1) + a * Expansion(n, a, k)
  {
    if k > 0 {
      ExpansionStep(n, a, k - 1);
      PascalTerm(Choose(n, k), Choose(n, k - 1), a, Pow(a, k - 1), Expansion(n, a, k - 1));
    }
  }

  lemma PascalTerm(c: int, d: int, a: int, p: int, e: int)
    ensures (c + d) * (a * p) + a * e == c * (a * p) + a * (e + d * p)
  {}

  lemma {:induction false} BinomialTheorem(n: nat, a: int)
    ensures Expansion(n, a, n + 1) == Pow(a + 1, n)
  {
    if n > 0 {
      BinomialTheorem(n - 1, a);
      ExpansionStep(n - 1, a, n);
      ChooseBeyond(n - 1, n);
      assert Expansion(n - 1, a, n + 1) == Expansion(n - 1, a, n);
      assert Pow(a + 1, n - 1) + a * Pow(a + 1, n - 1) == (a + 1) * Pow(a + 1, n - 1);
    }
  }

  lemma PrimeDividesChoose(p: int, k: nat)
    requires IsPrime(p) && 0 < k < p
    ensures Divides(p, Choose(p, k))
  {
    Absorb(p, k);
    DividesWith(p, k * Choose(p, k), Choose(p - 1, k - 1));
    PrimeDividesProduct(p, k, Choose(p, k));
    if Divides(p, k) {
      DividesSmall(p, k);
    }
  }

  /** All inner terms of the expansion are multiples of p. */
  lemma {:induction false} InnerTermsVanish(p: int, a: int, k: nat)
    requires IsPrime(p) && 0 < k <= p
    ensures Divides(p, Expansion(p, a, k) - 1)
    decreases k
  {
    if k == 1 {
      assert Expansion(p, a, 1) == Expansion(p, a, 0) + Choose(p, 0) * Pow(a, 0);
      DividesWith(p, 0, 0);
    } else {
      InnerTermsVanish(p, a, k - 1);
      PrimeDividesChoose(p, k - 1);
      DividesProduct(p, Choose(p, k - 1), Pow(a, k - 1));
      DividesSum(p, Expansion(p, a, k - 1) - 1, Choose(p, k - 1) * Pow(a, k - 1));
    }
  }

  /** Fermat's little theorem: a^p and a agree modulo p. */
  lemma {:induction false} FermatLittle(p: int, a: nat)
    requires IsPrime(p)
    ensures Divides(p, Pow(a, p) - a)
    decreases a
  {
    if a == 0 {
      DividesWith(p, 0, 0);
      assert Pow(0, p) == 0 * Pow(0, p - 1);
    } else {
      FermatLittle(p, a - 1);
      BinomialTheorem(p, a - 1);
      InnerTermsVanish(p, a - 1, p);
      ChooseAll(p);
      DividesSum(p, Expansion(p, a - 1, p) - 1, Pow(a - 1, p) - (a - 1));
    }
  }

  /** Exponents congruent to 1 modulo p - 1 change nothing modulo p. */
  lemma {:induction false} FermatExponent(p: int, m: nat, k: nat)
    requires IsPrime(p)
    ensures k * (p - 1) >= 0
    ensures Divides(p, Pow(m, 1 + k * (p - 1)) - m)
  {
    if k == 0 {
      assert Pow(m, 1) == m * Pow(m, 0);
      DividesWith(p, 0, 0);
    } else {
      FermatExponent(p, m, k - 1);
      FermatLittle(p, m);
      var e := 1 + (k - 1) * (p - 1);
      assert 1 + k * (p - 1) == e + (p - 1);
      PowAdd(m, e, p - 1);
      DividesProduct(p, Pow(m, e) - m, Pow(m, p - 1));
      DividesSum(p, (Pow(m, e) - m) * Pow(m, p - 1), Pow(m, p) - m);
      Telescoped(Pow(m, e), m, Pow(m, p - 1));
    }
  }

  lemma Telescoped(x: int, m: int, y: int)
    ensures (x - m) * y + (m * y - m) == x * y - m
  {}
}
