/** Divisibility, powers, the extended Euclidean algorithm and Euclid's lemma. */
module NumberTheory {

  // ----- Divisibility -----

  ghost predicate Divides(d: int, a: int) {
    exists k: int :: a == d * k
  }

  lemma DividesWith(d: int, a: int, k: int)
    requires a == d * k
    ensures Divides(d, a)
  {}

  lemma Quotient(d: int, a: int) returns (k: int)
    requires Divides(d, a)
    ensures a == d * k
  {
    k :| a == d * k;
  }

  lemma DividesSum(d: int, a: int, b: int)
    requires Divides(d, a) && Divides(d, b)
    ensures Divides(d, a + b) && Divides(d, a - b)
  {
    var j := Quotient(d, a);
    var k := Quotient(d, b);
    assert d * j + d * k == d * (j + k) && d * j - d * k == d * (j - k);
    DividesWith(d, a + b, j + k);
    DividesWith(d, a - b, j - k);
  }

  lemma DividesProduct(d: int, a: int, c: int)
    requires Divides(d, a)
    ensures Divides(d, a * c) && Divides(d, c * a)
  {
    var k := Quotient(d, a);
    assert d * k * c == d * (k * c);
    DividesWith(d, a * c, k * c);
    assert c * a == a * c;
  }

  lemma DividesSmall(d: int, a: int)
    requires Divides(d, a) && -d < a < d
    ensures a == 0
  {
    var k := Quotient(d, a);
    MultipleBound(d, k);
  }

  lemma MultipleBound(d: int, k: int)
    ensures d > 0 && k >= 1 ==> d * k >= d
    ensures d > 0 && k <= -1 ==> d * k <= -d
    ensures d > 0 && k <= 0 ==> d * k <= 0
    ensures d == 0 || k == 0 ==> d * k == 0
    ensures k == 1 ==> d * k == d
  {}

  lemma RemainderDivides(a: int, d: int)
    requires d > 0
    ensures Divides(d, a - a % d)
    ensures a % d == 0 <==> Divides(d, a)
  {
    DividesWith(d, a - a % d, a / d);
    if Divides(d, a) {
      DividesSum(d, a, a - a % d);
      DividesSmall(d, a % d);
    }
  }

  lemma RemainderUnique(a: int, m: int, r: int)
    requires 0 <= r < m && Divides(m, a - r)
    ensures a % m == r
  {
    RemainderDivides(a, m);
    DividesSum(m, a - r, a - a % m);
    DividesSmall(m, a % m - r);
  }

  lemma DividesTransitive(c: int, d: int, n: int)
    requires Divides(c, d) && Divides(d, n)
    ensures Divides(c, n)
  {
    var k := Quotient(d, n);
    DividesProduct(c, d, k);
  }

  lemma ProductCongruent(m: int, a: int, a': int, c: int, c': int)
    requires Divides(m, a - a') && Divides(m, c - c')
    ensures Divides(m, a * c - a' * c')
  {
    DividesProduct(m, a - a', c);
    DividesProduct(m, c - c', a');
    DividesSum(m, (a - a') * c, a' * (c - c'));
    assert (a - a') * c + a' * (c - c') == a * c - a' * c';
  }

  // ----- Powers -----

  function Pow(b: int, e: nat): int {
    if e == 0 then 1 else b * Pow(b, e - 1)
  }

  lemma {:induction false} PowAdd(b: int, m: nat, n: nat)
    ensures Pow(b, m + n) == Pow(b, m) * Pow(b, n)
  {
    if m > 0 {
      PowAdd(b, m - 1, n);
      assert b * (Pow(b, m - 1) * Pow(b, n)) == b * Pow(b, m - 1) * Pow(b, n);
    }
  }

  lemma {:induction false} PowMul(b: int, m: nat, n: nat)
    ensures m * n >= 0 && Pow(Pow(b, m), n) == Pow(b, m * n)
  {
    assert m * n >= 0;
    if n > 0 {
      PowMul(b, m, n - 1);
      assert m * n == m + m * (n - 1);
      PowAdd(b, m, m * (n - 1));
    }
  }

  lemma SquarePower(b: int, e: nat)
    ensures Pow(b, e) == (if e % 2 == 1 then b else 1) * Pow(b * b, e / 2)
  {
    assert Pow(b, 2) == b * b by {
      assert Pow(b, 2) == b * Pow(b, 1) && Pow(b, 1) == b * Pow(b, 0);
    }
    PowMul(b, 2, e / 2);
    if e % 2 == 1 {
      assert Pow(b, e) == b * Pow(b, e - 1);
    }
  }

  lemma {:induction false} PowNonNegative(b: int, e: nat)
    requires b >= 0
    ensures Pow(b, e) >= 0
  {
    if e > 0 {
      PowNonNegative(b, e - 1);
    }
  }

  /** Congruent bases have congruent powers. */
  lemma {:induction false} PowCongruent(d: int, x: int, y: int, e: nat)
    requires Divides(d, x - y)
    ensures Divides(d, Pow(x, e) - Pow(y, e))
  {
    if e == 0 {
      DividesWith(d, 0, 0);
    } else {
      var a, b := Pow(x, e - 1), Pow(y, e - 1);
      PowCongruent(d, x, y, e - 1);
      DividesProduct(d, a - b, x);
      DividesProduct(d, x - y, b);
      DividesSum(d, x * (a - b), (x - y) * b);
      assert x * (a - b) + (x - y) * b == x * a - y * b;
    }
  }

  // ----- C division and the extended Euclidean algorithm -----

  function Abs(a: int): nat {
    if a < 0 then -a else a
  }

  /** Division that truncates toward zero, and its remainder. */
  function CDiv(a: int, b: int): int
    requires b != 0
  {
    if (a < 0) == (b < 0) then Abs(a) / Abs(b) else -(Abs(a) / Abs(b))
  }

  function CRem(a: int, b: int): int
    requires b != 0
  {
    a - CDiv(a, b) * b
  }

  lemma CRemBound(a: int, b: int)
    requires b != 0
    ensures Abs(CRem(a, b)) < Abs(b)
    ensures a >= 0 && b > 0 ==> CDiv(a, b) == a / b && CRem(a, b) == a % b
  {
    assert Abs(a) == Abs(a) / Abs(b) * Abs(b) + Abs(a) % Abs(b);
  }

  /** The greatest common divisor g that Euclid's algorithm finds, with x and y such that a * x + b * y == g. */
  function ExtGcd(a: int, b: int): (r: (int, int, int))
    decreases Abs(b)
  {
    if b == 0 then (a, 1, 0)
    else
      CRemBound(a, b);
      var (g, x1, y1) := ExtGcd(b, CRem(a, b));
      (g, y1, x1 - CDiv(a, b) * y1)
  }

  lemma {:induction false} Bezout(a: int, b: int)
    ensures var (g, x, y) := ExtGcd(a, b); a * x + b * y == g
    decreases Abs(b)
  {
    if b != 0 {
      CRemBound(a, b);
      Bezout(b, CRem(a, b));
      var (g, x1, y1) := ExtGcd(b, CRem(a, b));
      BezoutStep(a, b, CDiv(a, b), x1, y1);
    }
  }

  lemma BezoutStep(a: int, b: int, q: int, x1: int, y1: int)
    ensures b * x1 + (a - q * b) * y1 == a * y1 + b * (x1 - q * y1)
  {}

  lemma {:induction false} GcdDivides(a: int, b: int)
    ensures Divides(ExtGcd(a, b).0, a) && Divides(ExtGcd(a, b).0, b)
    decreases Abs(b)
  {
    var g := ExtGcd(a, b).0;
    if b == 0 {
      DividesWith(g, a, 1);
      DividesWith(g, b, 0);
    } else {
      CRemBound(a, b);
      GcdDivides(b, CRem(a, b));
      DividesProduct(g, b, CDiv(a, b));
      DividesSum(g, CRem(a, b), CDiv(a, b) * b);
    }
  }

  /** Every common divisor divides the result, so it is the greatest one up to sign. */
  lemma GcdIsGreatest(a: int, b: int, d: int)
    requires Divides(d, a) && Divides(d, b)
    ensures Divides(d, ExtGcd(a, b).0)
  {
    var (g, x, y) := ExtGcd(a, b);
    Bezout(a, b);
    DividesProduct(d, a, x);
    DividesProduct(d, b, y);
    DividesSum(d, a * x, b * y);
  }

  lemma {:induction false} GcdNonNegative(a: nat, b: nat)
    ensures ExtGcd(a, b).0 >= 0
    decreases b
  {
    if b != 0 {
      CRemBound(a, b);
      GcdNonNegative(b, CRem(a, b));
    }
  }

  // ----- Primes -----

  ghost predicate IsPrime(n: int) {
    n >= 2 && forall d :: 2 <= d < n ==> !Divides(d, n)
  }

  lemma PrimeCoprime(p: int, a: int)
    requires IsPrime(p) && a >= 0 && !Divides(p, a)
    ensures ExtGcd(a, p).0 == 1
  {
    var g := ExtGcd(a, p).0;
    GcdDivides(a, p);
    GcdNonNegative(a, p);
    var k := Quotient(g, p);
    MultipleBound(g, k);
  }

  /** Euclid's lemma. */
  lemma PrimeDividesProduct(p: int, a: int, b: int)
    requires IsPrime(p) && a >= 0 && Divides(p, a * b)
    ensures Divides(p, a) || Divides(p, b)
  {
    if !Divides(p, a) {
      PrimeCoprime(p, a);
      Bezout(a, p);
      CoprimeCancels(p, a, b, ExtGcd(a, p).1, ExtGcd(a, p).2);
    }
  }

  lemma CoprimeCancels(p: int, a: int, b: int, x: int, y: int)
    requires Divides(p, a * b) && a * x + p * y == 1
    ensures Divides(p, b)
  {
    DividesProduct(p, a * b, x);
    DividesWith(p, p * (y * b), y * b);
    DividesSum(p, a * b * x, p * (y * b));
    BezoutTimes(p, a, b, x, y);
  }

  lemma BezoutTimes(p: int, a: int, b: int, x: int, y: int)
    requires a * x + p * y == 1
    ensures a * b * x + p * (y * b) == b
  {
    assert (a * x + p * y) * b == b;
  }
}
