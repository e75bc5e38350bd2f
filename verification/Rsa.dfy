/** RSA key generation, encryption and decryption. */
module Rsa {
  import opened NumberTheory
  import opened Fermat
  import opened Proth

  const TWO_63: int := 0x8000_0000_0000_0000
  const TWO_127: int := 0x8000_0000_0000_0000_0000_0000_0000_0000

  // ----- Euclid in fixed-width arithmetic -----

  function Max1(a: int): int {
    if a < 1 then 1 else a
  }

  /** One unfolding of the extended Euclidean algorithm on natural numbers. */
  lemma Unfold(a: nat, b: nat) returns (q: nat, r: nat)
    requires b > 0
    ensures a == q * b + r && r < b && q == CDiv(a, b) && r == CRem(a, b)
    ensures var (g, x, y) := ExtGcd(b, r); ExtGcd(a, b) == (g, y, x - q * y)
  {
    DivideNat(a, b);
    UnfoldStep(a, b);
    q, r := CDiv(a, b), CRem(a, b);
  }

  lemma DivideNat(a: nat, b: nat)
    requires b > 0
    ensures a == CDiv(a, b) * b + CRem(a, b) && 0 <= CRem(a, b) < b
  {
    CRemBound(a, b);
  }

  lemma UnfoldStep(a: int, b: int)
    requires b != 0
    ensures var (g, x, y) := ExtGcd(b, CRem(a, b)); ExtGcd(a, b) == (g, y, x - CDiv(a, b) * y)
  {}

  lemma UnfoldLast(b: nat)
    ensures ExtGcd(b, 0) == (b, 1, 0)
  {}

  ghost predicate Fits(a: nat, b: nat, x: int, y: int) {
    Abs(x) <= Max1(b) && Abs(y) <= Max1(a)
  }

  /** The product that the recursion forms on its way back: (a / b) * y1. */
  ghost function StepProduct(a: nat, b: nat): int
    requires b > 0
  {
    CDiv(a, b) * ExtGcd(b, CRem(a, b)).2
  }

  /** Neither the coefficients nor the products on the way outgrow the arguments, so nothing overflows on 64-bit
      arguments. */
  lemma {:induction false} CoefficientsFit(a: nat, b: nat)
    ensures Fits(a, b, ExtGcd(a, b).1, ExtGcd(a, b).2)
    ensures b > 0 ==> Abs(StepProduct(a, b)) <= a
    decreases b
  {
    if b == 0 {
      UnfoldLast(a);
    } else {
      var q, r := Unfold(a, b);
      CoefficientsFit(b, r);
      if r == 0 {
        UnfoldLast(b);
      }
      FitStep(a, b, q, r, ExtGcd(b, r).1, ExtGcd(b, r).2);
    }
  }

  lemma FitStep(a: nat, b: nat, q: nat, r: nat, x: int, y: int)
    requires b > 0 && a == q * b + r && r < b && Fits(b, r, x, y)
    requires r == 0 ==> x == 1 && y == 0
    ensures Fits(a, b, y, x - q * y) && Abs(q * y) <= a
  {
    ProductBound(q, y, b);
  }

  lemma ProductBound(q: nat, y: int, b: nat)
    requires Abs(y) <= b
    ensures -(q * b) <= q * y <= q * b
  {
    assert q * (b - y) >= 0 && q * (b + y) >= 0;
  }

  ghost predicate Half(a: nat, b: nat, x: int, y: int) {
    (b >= 2 ==> 2 * Abs(x) <= b) && (a >= 2 ==> 2 * Abs(y) <= a)
  }

  /** For coprime arguments the coefficients are at most half of them. */
  lemma {:induction false} HalfCoefficients(a: nat, b: nat)
    requires ExtGcd(a, b).0 == 1
    ensures Half(a, b, ExtGcd(a, b).1, ExtGcd(a, b).2)
    decreases b
  {
    if b == 0 {
      UnfoldLast(a);
    } else {
      var q, r := Unfold(a, b);
      HalfCoefficients(b, r);
      if r == 0 {
        UnfoldLast(b);
      } else if r == 1 {
        var q', r' := Unfold(b, 1);
        UnfoldLast(1);
      }
      HalfStep(a, b, q, r, ExtGcd(b, r).1, ExtGcd(b, r).2);
    }
  }

  lemma HalfStep(a: nat, b: nat, q: nat, r: nat, x: int, y: int)
    requires b > 0 && a == q * b + r && r < b && Half(b, r, x, y)
    requires r == 0 ==> b == 1 && x == 1 && y == 0
    requires r == 1 ==> x == 0 && y == 1
    ensures Half(a, b, y, x - q * y)
  {
    if b >= 2 {
      ProductBound(q, 2 * y, b);
      assert q * (2 * y) == 2 * (q * y);
    }
  }

  /** The loop form of Euclid's algorithm. */
  method Gcd(a0: int, b0: int) returns (a: int)
    ensures a == ExtGcd(a0, b0).0
  {
    a := a0;
    var b := b0;
    while b != 0
      invariant ExtGcd(a, b).0 == ExtGcd(a0, b0).0
      decreases Abs(b)
    {
      CRemBound(a, b);
      var t := b;
      b := CRem(a, b);
      a := t;
    }
  }

  /** The sum x % phi + phi, which is formed in a signed 64-bit word. */
  function InverseSum(e: int, phi: int): int
    requires phi > 0
  {
    CRem(ExtGcd(e, phi).1, phi) + phi
  }

  /** The inverse of e modulo phi: there may be none, and the sum may leave the 64-bit range. */
  datatype Inverse = NotInvertible | OutOfRange | Inverted(d: nat)

  function ModInverse(e: int, phi: int): Inverse
    requires phi > 0
  {
    var (g, x, y) := ExtGcd(e, phi);
    if g != 1 then NotInvertible
    else if InverseSum(e, phi) >= TWO_63 then OutOfRange
    else
      CRemIsMod(x, phi);
      Inverted(CRem(InverseSum(e, phi), phi))
  }

  lemma CRemIsMod(x: int, phi: int)
    requires phi > 0
    ensures -phi < CRem(x, phi) < phi && CRem(CRem(x, phi) + phi, phi) == x % phi
  {
    CRemBound(x, phi);
    var r := CRem(x, phi);
    CRemBound(r + phi, phi);
    DividesWith(phi, x - r, CDiv(x, phi));
    RemainderDivides(x, phi);
    RemainderDivides(r + phi, phi);
    DividesWith(phi, phi, 1);
    DividesSum(phi, x - r, x - x % phi);
    DividesSum(phi, x % phi - r, phi);
    DividesSum(phi, x % phi - r - phi, r + phi - (r + phi) % phi);
    DividesSmall(phi, x % phi - (r + phi) % phi);
  }

  /** The coefficient of e, reduced, is its inverse. */
  lemma CoefficientInverts(e: int, phi: int)
    requires phi > 0 && ExtGcd(e, phi).0 == 1
    ensures Divides(phi, e * (ExtGcd(e, phi).1 % phi) - 1)
  {
    var x, y := ExtGcd(e, phi).1, ExtGcd(e, phi).2;
    Bezout(e, phi);
    RemainderDivides(x, phi);
    ReducedInverse(e, phi, x, y, x % phi);
  }

  /** What each outcome means. */
  lemma InverseInverts(e: nat, phi: int)
    requires e > 0 && 0 < phi < TWO_63
    ensures match ModInverse(e, phi)
      case NotInvertible => ExtGcd(e, phi).0 != 1
      case OutOfRange => ExtGcd(e, phi).0 == 1 && SumOverflows(e, phi)
      case Inverted(d) => ExtGcd(e, phi).0 == 1 && !SumOverflows(e, phi) && d < phi && Divides(phi, e * d - 1)
  {
    if ExtGcd(e, phi).0 == 1 {
      SumOverflowIff(e, phi);
      CRemIsMod(ExtGcd(e, phi).1, phi);
      CoefficientInverts(e, phi);
    }
  }

  lemma ReducedInverse(e: int, phi: int, x: int, y: int, d: int)
    requires e * x + phi * y == 1 && Divides(phi, x - d)
    ensures Divides(phi, e * d - 1)
  {
    var k := Quotient(phi, x - d);
    ReducedInverseSum(e, phi, x, y, d, k);
    DividesWith(phi, e * d - 1, -(y + e * k));
  }

  lemma ReducedInverseSum(e: int, phi: int, x: int, y: int, d: int, k: int)
    requires e * x + phi * y == 1 && x - d == phi * k
    ensures e * d - 1 == phi * -(y + e * k)
  {
    assert e * (phi * k) == phi * (e * k);
    assert e * x - e * d == e * (x - d);
  }

  /** The sum is large exactly for small inverses of a large phi. */
  lemma SumOfSmallInverse(e: nat, phi: int)
    requires 0 < phi < TWO_63 && ExtGcd(e, phi).0 == 1
    ensures var d := ExtGcd(e, phi).1 % phi;
      InverseSum(e, phi) >= TWO_63 <==> 2 * d <= phi && d + phi >= TWO_63
  {
    var x, y := ExtGcd(e, phi).1, ExtGcd(e, phi).2;
    CRemIsMod(x, phi);
    if phi >= 2 {
      HalfCoefficients(e, phi);
      CRemSmall(x, phi);
      Bezout(e, phi);
      if 2 * x == -phi {
        HalfOfPhi(e, x, y);
      }
    }
  }

  /** k is the number below e for which k * phi + 1 is a multiple of e; only phi modulo e matters. */
  ghost predicate IsCofactor(e: nat, phi: int, k: nat) {
    k < e && Divides(e, k * phi + 1)
  }

  ghost predicate IsLarge(e: nat, phi: int, k: nat) {
    2 * k < e && (e + k) * phi + 1 >= e * TWO_63
  }

  /** The condition, in terms of e and phi alone, under which the sum leaves the 64-bit range. */
  ghost predicate SumOverflows(e: nat, phi: int) {
    exists k: nat :: IsCofactor(e, phi, k) && IsLarge(e, phi, k)
  }

  lemma CofactorModulo(e: nat, phi: int, psi: int, k: nat)
    requires Divides(e, phi - psi) && IsCofactor(e, phi, k)
    ensures IsCofactor(e, psi, k)
  {
    DividesProduct(e, phi - psi, k);
    DividesSum(e, k * phi + 1, k * (phi - psi));
    assert k * phi + 1 - k * (phi - psi) == k * psi + 1;
  }

  lemma CofactorIsUnique(e: nat, phi: int, k: nat, j: nat)
    requires e > 0 && ExtGcd(e, phi).0 == 1 && IsCofactor(e, phi, k) && IsCofactor(e, phi, j)
    ensures k == j
  {
    var x, y := ExtGcd(e, phi).1, ExtGcd(e, phi).2;
    Bezout(e, phi);
    DividesSum(e, k * phi + 1, j * phi + 1);
    assert k * phi + 1 - (j * phi + 1) == phi * (k - j);
    CoprimeCancels(e, phi, k - j, y, x);
    DividesSmall(e, k - j);
  }

  /** The quotient of e * d - 1 by phi is the cofactor. */
  lemma CofactorOfInverse(e: nat, phi: int, d: nat) returns (k: nat)
    requires e > 0 && phi >= 2 && d < phi && Divides(phi, e * d - 1)
    ensures IsCofactor(e, phi, k) && e * d == k * phi + 1
  {
    var j := Quotient(phi, e * d - 1);
    InverseNotZero(e, phi, d, j);
    QuotientRange(e, phi, d, j);
    k := j;
    DividesWith(e, k * phi + 1, d);
  }

  lemma InverseNotZero(e: nat, phi: int, d: nat, j: int)
    requires phi >= 2 && e * d - 1 == phi * j
    ensures d > 0
  {
    if d == 0 {
      assert e * d == 0;
      MultipleBound(phi, j);
    }
  }

  lemma QuotientRange(e: nat, phi: int, d: nat, j: int)
    requires e > 0 && phi >= 2 && 0 < d < phi && e * d - 1 == phi * j
    ensures 0 <= j < e
  {
    ProductMono(1, 1, e, d);
    MultipleBound(phi, j);
    ProductMono(e, d, e, phi - 1);
    assert e * (phi - 1) == phi * e - e;
    if j >= e {
      ProductMono(phi, e, phi, j);
    }
  }

  /** Half of phi against half of e, and the sum against its multiple by e. */
  lemma InverseAgainstCofactor(e: nat, phi: int, d: nat, k: nat)
    requires e > 0 && phi >= 2 && e * d == k * phi + 1
    ensures 2 * d <= phi <==> 2 * k < e
    ensures d + phi >= TWO_63 <==> (e + k) * phi + 1 >= e * TWO_63
  {
    HalfAgainstHalf(e, phi, d, k);
    assert e * (d + phi) == (e + k) * phi + 1;
    CompareTimes(e, TWO_63, d + phi);
  }

  lemma HalfAgainstHalf(e: nat, phi: int, d: nat, k: nat)
    requires e > 0 && phi >= 2 && e * d == k * phi + 1
    ensures 2 * d <= phi <==> 2 * k < e
  {
    assert e * (2 * d) == (2 * k) * phi + 2;
    if 2 * k < e {
      ProductMono(2 * k, phi, e - 1, phi);
      assert (e - 1) * phi == e * phi - phi;
      CompareTimes(e, 2 * d, phi);
    } else {
      ProductMono(e, phi, 2 * k, phi);
      CompareTimes(e, 2 * d, phi);
    }
  }

  lemma CompareTimes(e: int, a: int, b: int)
    requires e > 0
    ensures a <= b <==> e * a <= e * b
  {
    MultipleBound(e, b - a);
    assert e * (b - a) == e * b - e * a;
  }

  lemma NothingOverflowsModuloOne(e: nat)
    ensures !SumOverflows(e, 1)
  {
    forall k: nat | IsCofactor(e, 1, k)
      ensures !IsLarge(e, 1, k)
    {
      if k + 1 < e {
        DividesSmall(e, k + 1);
      }
    }
  }

  /** The sum leaves the 64-bit range exactly under that condition. */
  lemma SumOverflowIff(e: nat, phi: int)
    requires e > 0 && 0 < phi < TWO_63 && ExtGcd(e, phi).0 == 1
    ensures InverseSum(e, phi) >= TWO_63 <==> SumOverflows(e, phi)
  {
    SumOfSmallInverse(e, phi);
    if phi == 1 {
      NothingOverflowsModuloOne(e);
    } else {
      var d := ExtGcd(e, phi).1 % phi;
      CoefficientInverts(e, phi);
      var k := CofactorOfInverse(e, phi, d);
      InverseAgainstCofactor(e, phi, d, k);
      forall j: nat | IsCofactor(e, phi, j)
        ensures j == k
      {
        CofactorIsUnique(e, phi, k, j);
      }
    }
  }

  /** Below two thirds of 2^63 nothing overflows. */
  lemma SmallPhiFits(e: nat, phi: int)
    requires e >= 2 && 0 < phi && 3 * phi < 2 * TWO_63
    ensures !SumOverflows(e, phi)
  {
    forall k: nat | IsCofactor(e, phi, k)
      ensures !IsLarge(e, phi, k)
    {
      if 2 * k < e {
        SmallSum(e, phi, k);
      }
    }
  }

  lemma SmallSum(e: nat, phi: int, k: nat)
    requires e >= 2 && 0 < phi && 3 * phi < 2 * TWO_63 && 2 * k < e
    ensures (e + k) * phi + 1 < e * TWO_63
  {
    var x, y := e * phi, k * phi;
    CofactorBelowHalf(e, phi, k);
    CompareTimes(e, 3 * phi + 1, 2 * TWO_63);
    TripleTimes(e, phi);
    assert (e + k) * phi == x + y;
  }

  lemma CofactorBelowHalf(e: nat, phi: int, k: nat)
    requires phi > 0 && 2 * k < e
    ensures 2 * (k * phi) <= e * phi - phi
  {
    ProductMono(2 * k, phi, e - 1, phi);
    assert (e - 1) * phi == e * phi - phi;
    assert 2 * k * phi == 2 * (k * phi);
  }

  lemma TripleTimes(e: int, phi: int)
    ensures e * (3 * phi + 1) == 3 * (e * phi) + e
  {}

  lemma CRemSmall(x: int, phi: int)
    requires phi > 0 && Abs(x) < phi
    ensures CRem(x, phi) == x && x % phi == if x < 0 then x + phi else x
  {
    SmallQuotient(Abs(x), phi);
    CRemOfQuotient(x, phi, 0);
    DividesWith(phi, if x < 0 then -phi else 0, if x < 0 then -1 else 0);
    RemainderUnique(x, phi, if x < 0 then x + phi else x);
  }

  lemma SmallQuotient(a: nat, d: nat)
    requires a < d
    ensures a / d == 0
  {}

  lemma CRemOfQuotient(x: int, d: int, q: int)
    requires d > 0 && Abs(x) / d == q
    ensures CRem(x, d) == x - (if x < 0 then -q else q) * d
  {}

  lemma HalfOfPhi(e: int, x: int, y: int)
    requires e * x + (-2 * x) * y == 1 && x < 0
    ensures x == -1
  {
    assert e * x + (-2 * x) * y == -x * (2 * y - e);
    DividesWith(-x, 1, 2 * y - e);
    if x < -1 {
      DividesSmall(-x, 1);
    }
  }

  // ----- Modular exponentiation -----

  /** A product formed in a signed 128-bit word, then reduced. */
  function MulMod(a: nat, b: nat, m: nat): (r: nat)
    requires m > 0 && a * b < TWO_127
    ensures r < m && Divides(m, a * b - r)
  {
    RemainderDivides(a * b, m);
    a * b % m
  }

  /** The greatest modulus for which the square of every residue fits a signed 128-bit word. */
  const MAX_MODULUS: int := 13043817825332782213

  /** Square and multiply, for all moduli whose residues have products that fit. */
  method ModExp(base: nat, exp: nat, mod: nat) returns (result: nat)
    requires 0 < mod <= MAX_MODULUS
    ensures result == if mod == 1 && exp == 0 then 1 else Pow(base, exp) % mod
  {
    result := 1;
    var b: nat, e: nat := base % mod, exp;
    ghost var goal := Pow(base, exp);
    RemainderDivides(base, mod);
    PowCongruent(mod, base, base % mod, exp);
    while e > 0
      invariant b < mod && (result < mod || (mod == 1 && result == 1 && (e > 0 || exp == 0)))
      invariant exp == 0 ==> e == 0 && result == 1
      invariant Divides(mod, goal - result * Pow(b, e))
    {
      ProductFits(result, b, mod);
      ProductFits(b, b, mod);
      ghost var r0, b0 := result, b;
      if e % 2 == 1 {
        result := MulMod(result, b, mod);
      }
      b := MulMod(b, b, mod);
      SquareAndMultiply(mod, goal, r0, b0, e, result, b);
      e := e / 2;
    }
    assert Pow(b, 0) == 1;
    if result < mod {
      RemainderUnique(goal, mod, result);
    }
  }

  lemma ProductMono(a: nat, b: nat, m: nat, n: nat)
    requires a <= m && b <= n
    ensures a * b <= m * n
  {
    assert (m - a) * b >= 0 && m * (n - b) >= 0;
  }

  /** The products of residues fit, and for the next greater modulus they need not. */
  lemma ProductFits(a: nat, b: nat, mod: nat)
    requires a <= 1 || a < mod
    requires b < mod <= MAX_MODULUS
    ensures a * b < TWO_127
    ensures MAX_MODULUS * MAX_MODULUS >= TWO_127
  {
    ProductMono(a, b, MAX_MODULUS - 1, MAX_MODULUS - 1);
  }

  /** One round of square and multiply keeps result * b^e modulo m. */
  lemma SquareAndMultiply(m: nat, goal: int, result: nat, b: nat, e: nat, result': nat, b': nat)
    requires m > 0 && e > 0 && Divides(m, b * b - b') && Divides(m, goal - result * Pow(b, e))
    requires if e % 2 == 1 then Divides(m, result * b - result') else result' == result
    ensures Divides(m, goal - result' * Pow(b', e / 2))
  {
    var h := e / 2;
    PowCongruent(m, b * b, b', h);
    var odd := if e % 2 == 1 then result * b else result;
    if e % 2 == 0 {
      DividesWith(m, odd - result', 0);
    }
    ProductCongruent(m, odd, result', Pow(b * b, h), Pow(b', h));
    SquarePower(b, e);
    OddPart(result, b, Pow(b, e), Pow(b * b, h), e % 2 == 1);
    DividesSum(m, goal - result * Pow(b, e), odd * Pow(b * b, h) - result' * Pow(b', h));
  }

  lemma OddPart(result: int, b: int, x: int, y: int, odd: bool)
    requires x == (if odd then b else 1) * y
    ensures result * x == (if odd then result * b else result) * y
  {
    if odd {
      Associate(result, b, y);
    }
  }

  lemma Associate(a: int, b: int, c: int)
    ensures a * (b * c) == (a * b) * c
  {}

  // ----- Primality -----

  lemma NotDivisible(c: int, d: int, n: int)
    requires Divides(c, d) && !Divides(c, n)
    ensures !Divides(d, n)
  {
    if Divides(d, n) {
      DividesTransitive(c, d, n);
    }
  }

  lemma SixSteps(n: int, i: int)
    requires i >= 5 && i % 6 == 5 && !Divides(2, n) && !Divides(3, n)
    ensures forall d :: i <= d < i + 6 && d != i && d != i + 2 ==> !Divides(d, n)
  {
    forall d | i <= d < i + 6 && d != i && d != i + 2
      ensures !Divides(d, n)
    {
      var t := i / 6;
      if d == i + 4 {
        DividesWith(3, d, 2 * t + 3);
        NotDivisible(3, d, n);
      } else {
        DividesWith(2, d, 3 * t + 3 + (d - i) / 2);
        NotDivisible(2, d, n);
      }
    }
  }

  /** A composite number has a divisor that is at most its square root. */
  lemma NoSmallDivisor(n: int, i: int)
    requires n >= 2 && i >= 2 && i * i > n && forall d :: 2 <= d < i ==> !Divides(d, n)
    ensures IsPrime(n)
  {
    forall d | 2 <= d < n
      ensures !Divides(d, n)
    {
      if Divides(d, n) {
        var k := Quotient(d, n);
        CofactorRange(n, d, k, i);
        assert n == k * d;
        DividesWith(k, n, d);
      }
    }
  }

  lemma CofactorRange(n: int, d: int, k: int, i: int)
    requires n == d * k && 2 <= d < n && i * i > n && i >= 2
    ensures k >= 2 && (d < i || k < i)
  {
    MultipleBound(d, k);
    if d >= i && k >= i {
      ProductMono(i, i, d, k);
    }
  }

  /** One test: n % a == 0 || n % b == 0. */
  method HasDivisor(n: int, a: int, b: int) returns (r: bool)
    requires a > 0 && b > 0
    ensures r == (Divides(a, n) || Divides(b, n))
  {
    RemainderDivides(n, a);
    RemainderDivides(n, b);
    r := n % a == 0 || n % b == 0;
  }

  /** What trial division says: Undefined if the square in the loop condition leaves the 64-bit range. */
  datatype Verdict = Composite | Prime | Undefined

  /** The greatest trial divisor whose square is below 2^63. */
  const ROOT: int := 3037000499

  /** Trial division by 2, 3 and the numbers next to multiples of 6: right whenever it answers, and without an
      answer exactly for primes from ROOT^2 on. */
  method IsPrimeTrial(n: int) returns (r: Verdict)
    requires n < TWO_63
    ensures r == if !IsPrime(n) then Composite else if n < ROOT * ROOT then Prime else Undefined
  {
    if n <= 1 {
      return Composite;
    }
    if n <= 3 {
      SmallPrimes(n);
      return Prime;
    }
    var divided := HasDivisor(n, 2, 3);
    if divided {
      return Composite;
    }
    FourDivides(n);
    var i := 5;
    while i * i <= n
      invariant i >= 5 && i % 6 == 5 && (i == 5 || (i - 6) * (i - 6) <= n)
      invariant forall d :: 2 <= d < i ==> !Divides(d, n)
      decreases n - i
    {
      BelowSquare(i, n);
      divided := HasDivisor(n, i, i + 2);
      if divided {
        return Composite;
      }
      SixSteps(n, i);
      i := i + 6;
    }
    NoSmallDivisor(n, i);
    TrialRange(n, i);
    return if i * i >= TWO_63 then Undefined else Prime;
  }

  /** Where the loop ends against the range of its square. */
  lemma TrialRange(n: int, i: int)
    requires 3 < n < TWO_63 && i % 6 == 5 && i >= 5 && i * i > n && (i == 5 || (i - 6) * (i - 6) <= n)
    ensures i * i >= TWO_63 <==> n >= ROOT * ROOT
  {
    if i <= ROOT {
      ProductMono(i, i, ROOT, ROOT);
    } else {
      assert i >= ROOT + 6;
      ProductMono(ROOT, ROOT, i - 6, i - 6);
      ProductMono(ROOT + 6, ROOT + 6, i, i);
    }
  }

  lemma BelowSquare(i: int, n: int)
    requires i >= 5 && i * i <= n
    ensures i + 2 < n
  {
    assert i * i >= 5 * i;
  }

  lemma FourDivides(n: int)
    requires !Divides(2, n)
    ensures !Divides(4, n)
  {
    DividesWith(2, 4, 2);
    if Divides(4, n) {
      DividesTransitive(2, 4, n);
    }
  }

  lemma SmallPrimes(n: int)
    requires n == 2 || n == 3
    ensures IsPrime(n)
  {
    if Divides(2, 3) {
      var k := Quotient(2, 3);
    }
  }

  // ----- Keys -----

  datatype Key = Key(n: nat, phi: nat, e: nat, d: nat)

  datatype KeyResult = NotPrime | TrialOverflow | NoInverse | SumOverflow(e: nat) | Generated(key: Key)

  /** The exponent search passed over every smaller odd candidate from 17 on. */
  ghost predicate FirstCoprime(e: nat, phi: nat) {
    && e >= 17 && e % 2 == 1
    && ExtGcd(e, phi).0 == 1
    && forall c: nat :: 17 <= c < e && c % 2 == 1 ==> NotCoprime(c, phi)
  }

  ghost predicate NotCoprime(c: nat, phi: nat) {
    ExtGcd(c, phi).0 != 1
  }

  ghost predicate IsKey(k: Key, p: int, q: int) {
    && p >= 2 && q >= 2 && k.n == p * q && k.phi == (p - 1) * (q - 1)
    && FirstCoprime(k.e, k.phi)
    && ModInverse(k.e, k.phi) == Inverted(k.d) && k.d < k.phi
    && Divides(k.phi, k.e * k.d - 1)
  }

  /** The number before phi is coprime to it. */
  lemma NeighbourIsCoprime(phi: int)
    requires phi >= 2
    ensures ExtGcd(phi - 1, phi).0 == 1
  {
    var g := ExtGcd(phi - 1, phi).0;
    GcdDivides(phi - 1, phi);
    GcdNonNegative(phi - 1, phi);
    DividesSum(g, phi, phi - 1);
    var k := Quotient(g, 1);
    MultipleBound(g, k);
    if g > 1 {
      DividesSmall(g, 1);
    }
  }

  /** A phi below 17 is coprime to 17, which the search then never tests. */
  lemma SeventeenIsCoprime(phi: int)
    requires 1 <= phi < 17
    ensures ExtGcd(17, phi).0 == 1
  {
    var g := ExtGcd(17, phi).0;
    GcdDivides(17, phi);
    GcdNonNegative(17, phi);
    var k := Quotient(g, phi);
    MultipleBound(g, k);
    if g >= 2 {
      RemainderDivides(17, g);
      NotOfSeventeen(g);
    }
  }

  lemma NotOfSeventeen(g: int)
    requires 2 <= g < 17
    ensures 17 % g != 0
  {
    if g > 8 {
      DividesWith(g, g, 1);
      RemainderUnique(17, g, 17 - g);
    } else {
      assert 17 % 2 == 1 && 17 % 3 == 2 && 17 % 4 == 1 && 17 % 5 == 2 && 17 % 6 == 5 && 17 % 7 == 3 && 17 % 8 == 1;
      assert g == 2 || g == 3 || g == 4 || g == 5 || g == 6 || g == 7 || g == 8;
    }
  }

  /** Euler's totient is even, or it is 1 (for 2 * 2). */
  lemma TotientParity(p: int, q: int)
    requires IsPrime(p) && IsPrime(q)
    ensures (p - 1) * (q - 1) >= 1
    ensures (p - 1) * (q - 1) == 1 || (p - 1) * (q - 1) % 2 == 0
  {
    assert (p - 1) * (q - 1) >= 1 by {
      ProductMono(1, 1, p - 1, q - 1);
    }
    if p > 2 {
      OddPrime(p);
      EvenTimes((p - 1) / 2, q - 1);
    } else if q > 2 {
      OddPrime(q);
      EvenTimes((q - 1) / 2, p - 1);
    }
  }

  lemma OddPrime(p: int)
    requires IsPrime(p) && p > 2
    ensures p % 2 == 1
  {
    RemainderDivides(p, 2);
  }

  lemma EvenTimes(h: int, b: int)
    ensures 2 * h * b % 2 == 0 && b * (2 * h) % 2 == 0
  {
    assert 2 * h * b == 2 * (h * b) && b * (2 * h) == 2 * (h * b);
  }

  /** The search for the public exponent: from 17 in steps of 2. */
  method ChooseExponent(phi: nat) returns (e: nat)
    requires phi >= 1
    ensures e >= 17 && e % 2 == 1
    ensures e < phi ==> ExtGcd(e, phi).0 == 1
    ensures forall c: nat :: 17 <= c < e && c % 2 == 1 ==> c < phi && NotCoprime(c, phi)
  {
    e := 17;
    while e < phi
      invariant e >= 17 && e % 2 == 1
      invariant forall c: nat :: 17 <= c < e && c % 2 == 1 ==> c < phi && NotCoprime(c, phi)
    {
      var g := Gcd(e, phi);
      if g == 1 {
        break;
      }
      e := e + 2;
    }
  }

  /** For every totient the search ends at a coprime exponent. */
  lemma ExponentIsCoprime(phi: nat, e: nat)
    requires phi == 1 || (phi > 0 && phi % 2 == 0)
    requires e >= 17 && e % 2 == 1 && (e < phi ==> ExtGcd(e, phi).0 == 1)
    requires forall c: nat :: 17 <= c < e && c % 2 == 1 ==> c < phi && NotCoprime(c, phi)
    ensures FirstCoprime(e, phi)
  {
    SearchEnds(phi, e);
    if e >= phi {
      SeventeenIsCoprime(phi);
    }
  }

  /** The search does not run past phi: phi - 1 would have ended it, and below 18 it ends at 17. */
  lemma SearchEnds(phi: nat, e: nat)
    requires phi == 1 || (phi > 0 && phi % 2 == 0)
    requires e >= 17 && e % 2 == 1
    requires forall c: nat :: 17 <= c < e && c % 2 == 1 ==> c < phi && NotCoprime(c, phi)
    ensures e < phi || (e == 17 && phi < 17)
  {
    if 17 < e {
      assert NotCoprime(17, phi);
    }
    if phi >= 18 {
      EndsAtNeighbour(phi, e);
    }
  }

  lemma EndsAtNeighbour(phi: nat, e: nat)
    requires phi >= 18 && phi % 2 == 0 && e % 2 == 1
    requires forall c: nat :: 17 <= c < e && c % 2 == 1 ==> NotCoprime(c, phi)
    ensures e < phi
  {
    NeighbourIsCoprime(phi);
    var c: nat := phi - 1;
    assert c % 2 == 1 && !NotCoprime(c, phi);
  }

  ghost predicate InTrialRange(p: int) {
    p < ROOT * ROOT
  }

  /** Key generation, for 64-bit numbers whose product and totient fit their words: every way it can end. */
  method GenerateKey(p: int, q: int) returns (r: KeyResult)
    requires p < TWO_63 && q < TWO_63
    requires p > 0 && q > 0 ==> p * q < 2 * TWO_63 && (p - 1) * (q - 1) < TWO_63
    ensures r.NotPrime? <==> !IsPrime(p) || (InTrialRange(p) && !IsPrime(q))
    ensures r.TrialOverflow? <==> IsPrime(p) && (!InTrialRange(p) || (IsPrime(q) && !InTrialRange(q)))
    ensures IsPrime(p) && IsPrime(q) && InTrialRange(p) && InTrialRange(q) ==>
      match r
      case Generated(key) => IsKey(key, p, q) && !SumOverflows(key.e, (p - 1) * (q - 1))
      case SumOverflow(e) => FirstCoprime(e, (p - 1) * (q - 1)) && SumOverflows(e, (p - 1) * (q - 1))
      case _ => false
  {
    var pVerdict := IsPrimeTrial(p);
    if pVerdict != Prime {
      return if pVerdict == Composite then NotPrime else TrialOverflow;
    }
    var qVerdict := IsPrimeTrial(q);
    if qVerdict != Prime {
      return if qVerdict == Composite then NotPrime else TrialOverflow;
    }
    TotientParity(p, q);
    ProductMono(0, 0, p, q);
    var n, phi := p * q, (p - 1) * (q - 1);
    var e := ChooseExponent(phi);
    ExponentIsCoprime(phi, e);
    InverseInverts(e, phi);
    match ModInverse(e, phi)
    case NotInvertible => return NoInverse;
    case OutOfRange => return SumOverflow(e);
    case Inverted(d) => return Generated(Key(n, phi, e, d));
  }

  /** Key generation on a prime that trial division cannot judge. */
  method KeyOfLargePrime(n: int) returns (r: KeyResult)
    requires n == 9223372034170421249
    ensures r.TrialOverflow?
  {
    TrialOverflowExample(n);
    r := GenerateKey(n, 2);
  }

  /** It is a prime in the range where the square in the loop condition overflows, below 2^63. */
  lemma TrialOverflowExample(n: int)
    requires n == 9223372034170421249
    ensures IsPrime(n) && !InTrialRange(n) && n < TWO_63
  {
    LargePrime();
  }

  lemma FirstCoprimeIsUnique(e: nat, f: nat, phi: nat)
    requires FirstCoprime(e, phi) && FirstCoprime(f, phi)
    ensures e == f
  {
    assert !NotCoprime(e, phi) && !NotCoprime(f, phi);
  }

  /** Two primes have a key exactly if the sum does not overflow for the exponent that the search finds. */
  lemma KeyExistsIff(p: int, q: int, e: nat)
    requires IsPrime(p) && IsPrime(q) && 0 < (p - 1) * (q - 1) < TWO_63
    requires FirstCoprime(e, (p - 1) * (q - 1))
    ensures (exists k :: IsKey(k, p, q)) <==> !SumOverflows(e, (p - 1) * (q - 1))
  {
    var phi := (p - 1) * (q - 1);
    InverseInverts(e, phi);
    ProductMono(0, 0, p, q);
    if !SumOverflows(e, phi) {
      assert IsKey(Key(p * q, phi, e, ModInverse(e, phi).d), p, q);
    }
    forall k | IsKey(k, p, q)
      ensures !SumOverflows(e, phi)
    {
      FirstCoprimeIsUnique(k.e, e, phi);
    }
  }

  /** Two primes whose totient is less than two thirds of 2^63 always have a key. */
  lemma SmallPrimesHaveKey(p: int, q: int, e: nat)
    requires IsPrime(p) && IsPrime(q) && 0 < (p - 1) * (q - 1) && 3 * ((p - 1) * (q - 1)) < 2 * TWO_63
    requires FirstCoprime(e, (p - 1) * (q - 1))
    ensures exists k :: IsKey(k, p, q)
  {
    SmallPhiFits(e, (p - 1) * (q - 1));
    KeyExistsIff(p, q, e);
  }

  lemma CoprimeByCombination(a: nat, b: nat, x: int, y: int)
    requires a * x + b * y == 1
    ensures ExtGcd(a, b).0 == 1
  {
    var g := ExtGcd(a, b).0;
    GcdDivides(a, b);
    GcdNonNegative(a, b);
    DividesProduct(g, a, x);
    DividesProduct(g, b, y);
    DividesSum(g, a * x, b * y);
    var k := Quotient(g, 1);
    MultipleBound(g, k);
    if g > 1 {
      DividesSmall(g, 1);
    }
  }

  /** Two primes for which the program finds no key: their product fits, 17 is coprime to the totient, and the sum
      of the modular inverse leaves the 64-bit range. */
  lemma OverflowExample(p: int, q: int, phi: int, e: nat)
    requires p == 2483027969 && q == 3489660929 && phi == (p - 1) * (q - 1) && e == 17
    ensures IsPrime(p)
    ensures IsPrime(q)
    ensures InTrialRange(p)
    ensures InTrialRange(q)
    ensures p * q <= TWO_63
    ensures 0 < phi < TWO_63
    ensures FirstCoprime(e, phi) && InverseSum(e, phi) >= TWO_63
    ensures forall k :: !IsKey(k, p, q)
  {
    FirstPrime();
    SecondPrime();
    assert phi == 8664925683060834304;
    CoprimeByCombination(e, phi, 3058209064609706225, -6);
    DividesWith(e, 6 * phi + 1, 3058209064609706225);
    assert IsCofactor(e, phi, 6) && IsLarge(e, phi, 6);
    SumOverflowIff(e, phi);
    KeyExistsIff(p, q, e);
  }

  // ----- Encryption and decryption -----

  /** The value of the exponentiation on a message. */
  function Crypt(m: nat, e: nat, n: nat): (c: nat)
    requires n > 0
  {
    Pow(m, e) % n
  }

  lemma CryptTwice(m: nat, e: nat, d: nat, n: nat)
    requires n > 0
    ensures e * d >= 0 && Divides(n, Crypt(Crypt(m, e, n), d, n) - Pow(m, e * d))
  {
    var c := Crypt(m, e, n);
    RemainderDivides(Pow(m, e), n);
    PowCongruent(n, Pow(m, e), c, d);
    RemainderDivides(Pow(c, d), n);
    DividesSum(n, Pow(Pow(m, e), d) - Pow(c, d), Pow(c, d) - Pow(c, d) % n);
    DividesProduct(n, Pow(Pow(m, e), d) - Pow(c, d) % n, -1);
    PowMul(m, e, d);
  }

  /** Two different primes that divide a number have a product that divides it. */
  lemma PrimesMultiply(p: int, q: int, z: int)
    requires IsPrime(p) && IsPrime(q) && p != q && Divides(p, z) && Divides(q, z)
    ensures Divides(p * q, z)
  {
    var k := Quotient(p, z);
    if Divides(q, p) {
      DifferentPrimes(p, q);
    }
    PrimeDividesProduct(q, p, k);
    var j := Quotient(q, k);
    assert p * (q * j) == p * q * j;
    DividesWith(p * q, z, j);
  }

  lemma DifferentPrimes(p: int, q: int)
    requires IsPrime(p) && IsPrime(q) && Divides(q, p)
    ensures p == q
  {
    if q > p {
      DividesSmall(q, p);
    }
  }

  /** The exponents of a key undo each other modulo either prime. */
  lemma ExponentUndone(p: int, other: nat, e: nat, d: nat, m: nat)
    requires IsPrime(p) && e * d >= 1 && Divides((p - 1) * other, e * d - 1)
    ensures Divides(p, Pow(m, e * d) - m)
  {
    var k := Quotient((p - 1) * other, e * d - 1);
    assert (p - 1) * other * k == other * k * (p - 1);
    var c := other * k;
    MultipleBound(p - 1, c);
    assert c * (p - 1) == (p - 1) * c;
    FermatExponent(p, m, c);
  }

  lemma ExponentsPositive(k: Key, p: int, q: int)
    requires IsKey(k, p, q) && k.phi >= 2
    ensures k.e * k.d >= 1
  {
    if k.d == 0 {
      assert k.e * k.d == 0;
      var j := Quotient(k.phi, -1);
      MultipleBound(k.phi, j);
    } else {
      ProductMono(1, 1, k.e, k.d);
    }
  }

  /** RSA correctness: decrypting an encrypted number gives it back modulo n, so exactly the messages below
      n are recovered. */
  lemma RsaIdentity(k: Key, p: int, q: int, m: nat)
    requires IsPrime(p) && IsPrime(q) && p != q && IsKey(k, p, q)
    ensures k.n > 0 && Crypt(Crypt(m, k.e, k.n), k.d, k.n) == m % k.n
  {
    ProductMono(1, 1, p, q);
    TotientOfDifferent(p, q);
    ExponentsPositive(k, p, q);
    ExponentUndone(p, q - 1, k.e, k.d, m);
    assert (p - 1) * (q - 1) == (q - 1) * (p - 1);
    ExponentUndone(q, p - 1, k.e, k.d, m);
    PrimesMultiply(p, q, Pow(m, k.e * k.d) - m);
    CryptTwice(m, k.e, k.d, k.n);
    var back := Crypt(Crypt(m, k.e, k.n), k.d, k.n);
    DividesSum(k.n, back - Pow(m, k.e * k.d), Pow(m, k.e * k.d) - m);
    DividesProduct(k.n, back - m, -1);
    RemainderUnique(m, k.n, back);
  }

  lemma TotientOfDifferent(p: int, q: int)
    requires p >= 2 && q >= 2 && p != q
    ensures (p - 1) * (q - 1) >= 2
  {
    if p > 2 {
      ProductMono(2, 1, p - 1, q - 1);
    } else {
      ProductMono(1, 2, p - 1, q - 1);
    }
  }

  /** With equal primes the message p is lost, whatever the exponents. */
  lemma EqualPrimesLose(p: int, e: nat, d: nat)
    requires IsPrime(p) && e >= 2
    ensures p * p > 0 && Crypt(Crypt(p, e, p * p), d, p * p) != p
  {
    ProductMono(1, 1, p, p);
    var n := p * p;
    assert Pow(p, e) == p * (p * Pow(p, e - 2)) && Pow(p, e - 1) == p * Pow(p, e - 2);
    assert p * (p * Pow(p, e - 2)) == n * Pow(p, e - 2);
    DividesWith(n, Pow(p, e), Pow(p, e - 2));
    RemainderDivides(Pow(p, e), n);
    if d == 0 {
      assert Pow(0, 0) == 1;
      RemainderAtMost(1, n);
    } else {
      assert Pow(0, d) == 0 * Pow(0, d - 1);
      RemainderAtMost(0, n);
    }
  }

  lemma RemainderAtMost(a: nat, n: nat)
    requires n > 0
    ensures a % n <= a
  {}

  /** The generated key recovers every message below n exactly when the primes are distinct, which the
      program documents but does not check. */
  lemma RecoversIffDistinct(k: Key, p: int, q: int)
    requires IsPrime(p) && IsPrime(q) && IsKey(k, p, q)
    ensures k.n > 0
    ensures (forall m: nat :: m < k.n ==> Crypt(Crypt(m, k.e, k.n), k.d, k.n) == m) <==> p != q
  {
    ProductMono(1, 1, p, q);
    if p != q {
      forall m: nat | m < k.n
        ensures Crypt(Crypt(m, k.e, k.n), k.d, k.n) == m
      {
        RsaIdentity(k, p, q, m);
        RemainderOfSmall(m, k.n);
      }
    } else {
      EqualPrimesLose(p, k.e, k.d);
      assert p < k.n by {
        ProductMono(2, p, p, p);
      }
    }
  }

  lemma RemainderOfSmall(m: nat, n: nat)
    requires m < n
    ensures m % n == m
  {}

  /** The demonstration of the program: encrypt a number, then decrypt it. */
  method EncryptAndDecrypt(k: Key, ghost p: int, ghost q: int, message: nat) returns (cipher: nat, decrypted: nat)
    requires IsPrime(p) && IsPrime(q) && p != q && IsKey(k, p, q) && k.n <= MAX_MODULUS
    ensures k.n > 0 && cipher == Pow(message, k.e) % k.n && decrypted == message % k.n
  {
    ProductMono(2, 2, p, q);
    RsaIdentity(k, p, q, message);
    cipher := ModExp(message, k.e, k.n);
    decrypted := ModExp(cipher, k.d, k.n);
  }
}
