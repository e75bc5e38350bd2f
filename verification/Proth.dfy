/** Proth's criterion, in a stronger form: a certificate of primality for numbers k * 2^m + 1. */
module Proth {
  import opened NumberTheory
  import opened Fermat

  // ----- Prime divisors -----

  /** The least divisor from d on. */
  lemma {:induction false} LeastDivisor(n: int, d: int) returns (r: int)
    requires 2 <= d <= n && forall c :: 2 <= c < d ==> !Divides(c, n)
    ensures d <= r <= n && Divides(r, n) && forall c :: 2 <= c < r ==> !Divides(c, n)
    decreases n - d
  {
    if Divides(d, n) {
      r := d;
    } else {
      if d == n {
        DividesWith(n, n, 1);
      }
      r := LeastDivisor(n, d + 1);
    }
  }

  /** A number that is not prime has a prime divisor that is at most its square root. */
  lemma SmallPrimeDivisor(n: int) returns (r: int)
    requires n >= 2 && !IsPrime(n)
    ensures IsPrime(r) && Divides(r, n) && r * r <= n
  {
    r := LeastDivisor(n, 2);
    forall c | 2 <= c < r
      ensures !Divides(c, r)
    {
      if Divides(c, r) {
        DividesTransitive(c, r, n);
      }
    }
    var d :| 2 <= d < n && Divides(d, n);
    assert r <= d;
    var k := Quotient(r, n);
    CofactorAtLeast(n, r, k);
  }

  lemma CofactorAtLeast(n: int, r: int, k: int)
    requires n == r * k && 2 <= r < n && forall c :: 2 <= c < r ==> !Divides(c, n)
    ensures r * r <= n
  {
    MultipleBound(r, k);
    assert n == k * r;
    DividesWith(k, n, r);
    assert k >= r;
    assert r * (k - r) >= 0;
  }

  // ----- The criterion -----

  lemma {:induction false} SplitTwos(x: nat) returns (s: nat, t: nat)
    requires x > 0
    ensures x == Pow(2, s) * t && t % 2 == 1
  {
    if x % 2 == 1 {
      s, t := 0, x;
    } else {
      var s', t' := SplitTwos(x / 2);
      s, t := s' + 1, t';
      Double(s', t');
    }
  }

  lemma Double(s: nat, t: nat)
    ensures Pow(2, s + 1) * t == 2 * (Pow(2, s) * t)
  {}

  lemma {:induction false} OddPowerOfMinusOne(t: nat)
    ensures Pow(-1, t) == if t % 2 == 1 then -1 else 1
  {
    if t > 0 {
      OddPowerOfMinusOne(t - 1);
    }
  }

  lemma {:induction false} PowerOfOne(t: nat)
    ensures Pow(1, t) == 1
  {
    if t > 0 {
      PowerOfOne(t - 1);
    }
  }

  /** Fermat's little theorem for a base that p does not divide. */
  lemma FermatUnit(p: int, a: nat)
    requires IsPrime(p) && !Divides(p, a)
    ensures Divides(p, Pow(a, p - 1) - 1)
  {
    FermatLittle(p, a);
    assert Pow(a, p) - a == a * (Pow(a, p - 1) - 1);
    PrimeDividesProduct(p, a, Pow(a, p - 1) - 1);
  }

  /** No power of a multiple of r is -1 modulo r. */
  lemma BaseIsUnit(r: int, a: nat, e: nat)
    requires r > 2 && e > 0 && Divides(r, Pow(a, e) + 1)
    ensures !Divides(r, a)
  {
    if Divides(r, a) {
      DividesProduct(r, a, Pow(a, e - 1));
      DividesSum(r, Pow(a, e) + 1, Pow(a, e));
      DividesSmall(r, 1);
    }
  }

  /** If a^e is -1 modulo the prime r, no odd multiple of e is a multiple of r - 1. */
  lemma OddMultiple(r: int, a: nat, e: nat, t: nat, j: nat)
    requires IsPrime(r) && r > 2 && e > 0 && Divides(r, Pow(a, e) + 1) && t % 2 == 1
    ensures e * t != (r - 1) * j
  {
    if e * t == (r - 1) * j {
      BaseIsUnit(r, a, e);
      FermatUnit(r, a);
      PowCongruent(r, Pow(a, r - 1), 1, j);
      PowerOfOne(j);
      PowMul(a, r - 1, j);
      PowCongruent(r, Pow(a, e), -1, t);
      OddPowerOfMinusOne(t);
      PowMul(a, e, t);
      DividesSum(r, Pow(a, e * t) + 1, Pow(a, e * t) - 1);
      DividesSmall(r, 2);
    }
  }

  /** If e is k * 2^(m - 1), then r is 1 modulo 2^m. */
  lemma TwosDivide(r: int, a: nat, k: nat, m: nat)
    requires IsPrime(r) && r > 2 && k > 0 && m > 0
    requires k * Pow(2, m - 1) > 0 && Divides(r, Pow(a, k * Pow(2, m - 1)) + 1)
    ensures Divides(Pow(2, m), r - 1)
  {
    var s, t := SplitTwos(r - 1);
    if s < m {
      PowNonNegative(2, m - 1 - s);
      PowAdd(2, s, m - 1 - s);
      var j := k * Pow(2, m - 1 - s);
      Rearranged(k, Pow(2, s), Pow(2, m - 1 - s), t);
      assert j >= 0;
      OddMultiple(r, a, k * Pow(2, m - 1), t, j);
    } else {
      PowAdd(2, m, s - m);
      DividesWith(Pow(2, m), Pow(2, m) * Pow(2, s - m), Pow(2, s - m));
      DividesProduct(Pow(2, m), Pow(2, s), t);
    }
  }

  lemma Rearranged(k: int, x: int, y: int, t: int)
    ensures k * (x * y) * t == (x * t) * (k * y)
  {}

  lemma {:induction false} PowPositive(b: int, e: nat)
    requires b >= 1
    ensures Pow(b, e) >= 1
  {
    if e > 0 {
      PowPositive(b, e - 1);
    }
  }

  /** Then k * 2^m + 1 is prime, or both its factors are 1 modulo 2^m. */
  lemma FactorsOfProth(n: int, k: nat, m: nat, a: nat) returns (x: int, y: int)
    requires m > 0 && k > 0 && n == k * Pow(2, m) + 1 && !IsPrime(n)
    requires k * Pow(2, m - 1) > 0 && Divides(n, Pow(a, k * Pow(2, m - 1)) + 1)
    ensures x >= 1 && y >= 1 && k == x * y * Pow(2, m) + x + y
  {
    HalfOfProth(n, k, m);
    var r := SmallPrimeDivisor(n);
    DividesTransitive(r, n, Pow(a, k * Pow(2, m - 1)) + 1);
    OddDivisor(r, n, k * Pow(2, m - 1));
    TwosDivide(r, a, k, m);
    x := Quotient(Pow(2, m), r - 1);
    PowPositive(2, m);
    var s := Quotient(r, n);
    y := FactorsSplit(k, Pow(2, m), x, r, s);
  }

  lemma FactorsSplit(k: int, p: int, x: int, r: int, s: int) returns (y: int)
    requires p >= 1 && r > 2 && r - 1 == p * x && k * p + 1 == r * s && r * r <= r * s
    ensures x >= 1 && y >= 1 && k == x * y * p + x + y
  {
    MultipleBound(p, x);
    CofactorIsGreater(r, s);
    y := k - x * s;
    OtherFactor(k, p, x, s);
    MultipleBound(p, y);
    Regroup(k, p, x, y, s);
  }

  lemma CofactorIsGreater(r: int, s: int)
    requires r > 0 && r * r <= r * s
    ensures s >= r
  {
    MultipleBound(r, s - r);
    assert r * s - r * r == r * (s - r);
  }

  lemma Regroup(k: int, p: int, x: int, y: int, s: int)
    requires y == k - x * s && s == p * y + 1
    ensures k == x * y * p + x + y
  {
    assert x * s == x * (p * y) + x;
    assert x * (p * y) == x * y * p;
  }

  lemma OtherFactor(k: int, p: int, x: int, s: int)
    requires k * p + 1 == (p * x + 1) * s
    ensures p * (k - x * s) == s - 1
  {
    assert (p * x + 1) * s == p * (x * s) + s;
  }

  lemma HalfOfProth(n: int, k: nat, m: nat)
    requires m > 0 && n == k * Pow(2, m) + 1
    ensures n == 2 * (k * Pow(2, m - 1)) + 1
  {
    assert Pow(2, m) == 2 * Pow(2, m - 1);
  }

  lemma OddDivisor(r: int, n: int, h: int)
    requires r >= 2 && n == 2 * h + 1 && Divides(r, n)
    ensures r > 2
  {
    if r == 2 {
      RemainderDivides(n, 2);
    }
  }

  /** Such a factorization needs a k whose remainder modulo 2^m is small against the quotient. */
  lemma SplitHasSmallRemainder(k: int, p: int, x: int, y: int)
    requires p >= 1 && k > 0 && x >= 1 && y >= 1 && k == x * y * p + x + y
    ensures k / p + 1 >= k % p
  {
    assert (x - 1) * (y - 1) == x * y - x - y + 1 >= 0;
    QuotientAtLeast(k, p, x * y);
    SmallOverMultiple(k, p, x * y, x + y);
  }

  lemma QuotientAtLeast(k: int, p: int, c: int)
    requires p >= 1 && k >= c * p
    ensures k / p >= c
  {
    assert k == p * (k / p) + k % p;
    MultipleBound(p, c - k / p);
    assert p * (c - k / p) == c * p - p * (k / p);
  }

  lemma SmallOverMultiple(k: int, p: int, c: int, d: int)
    requires p >= 1 && k == c * p + d && 0 <= d <= c + 1 && k / p >= c
    ensures k % p <= k / p + 1
  {
    assert k == p * (k / p) + k % p;
    MultipleBound(p, k / p - c);
    assert p * (k / p - c) == p * (k / p) - c * p;
  }

  // ----- Certificates -----

  /** A power of a, its square or a times its square, and so on. */
  datatype Chain = Last(c: nat) | Even(c: nat, rest: Chain) | Odd(c: nat, rest: Chain)

  /** The chain goes modulo n from the e-th power of a to the h-th, which is last. */
  predicate IsChain(n: nat, a: nat, chain: Chain, e: nat, h: nat, last: nat)
    requires n > 0
  {
    match chain
    case Last(c) => e == h && c == last
    case Even(c, rest) => c * c % n == rest.c && IsChain(n, a, rest, 2 * e, h, last)
    case Odd(c, rest) => a * (c * c) % n == rest.c && IsChain(n, a, rest, 2 * e + 1, h, last)
  }

  lemma {:induction false} ChainIsPower(n: nat, a: nat, chain: Chain, e: nat, h: nat, last: nat)
    requires n > 0 && IsChain(n, a, chain, e, h, last) && Divides(n, Pow(a, e) - chain.c)
    ensures Divides(n, Pow(a, h) - last)
  {
    if !chain.Last? {
      var c := chain.c;
      PowAdd(a, e, e);
      ProductCongruent(n, Pow(a, e), c, Pow(a, e), c);
      if chain.Even? {
        ToRemainder(n, Pow(a, e) * Pow(a, e), c * c);
        ChainIsPower(n, a, chain.rest, 2 * e, h, last);
      } else {
        DividesProduct(n, Pow(a, e) * Pow(a, e) - c * c, a);
        assert a * (Pow(a, e) * Pow(a, e) - c * c) == a * (Pow(a, e) * Pow(a, e)) - a * (c * c);
        ToRemainder(n, a * (Pow(a, e) * Pow(a, e)), a * (c * c));
        assert Pow(a, 2 * e + 1) == a * Pow(a, e + e);
        ChainIsPower(n, a, chain.rest, 2 * e + 1, h, last);
      }
    }
  }

  lemma ToRemainder(n: nat, x: int, y: int)
    requires n > 0 && Divides(n, x - y)
    ensures Divides(n, x - y % n)
  {
    RemainderDivides(y, n);
    DividesSum(n, x - y, y - y % n);
  }

  /** A chain from a to -1 certifies k * 2^m + 1, if k modulo 2^m is not small. */
  lemma FromCertificate(n: nat, k: nat, m: nat, p: nat, a: nat, chain: Chain)
    requires m > 0 && p == Pow(2, m - 1) && 0 < k && n == k * (2 * p) + 1 && p > 0 && k / (2 * p) + 1 < k % (2 * p)
    requires chain.c == a && IsChain(n, a, chain, 1, k * p, n - 1)
    ensures IsPrime(n)
  {
    assert Pow(a, 1) == a * Pow(a, 0);
    DividesWith(n, 0, 0);
    ChainIsPower(n, a, chain, 1, k * p, n - 1);
    DividesWith(n, n, 1);
    DividesSum(n, Pow(a, k * p) - (n - 1), n);
    assert Pow(2, m) == 2 * p;
    if !IsPrime(n) {
      assert k * p > 0;
      var x, y := FactorsOfProth(n, k, m, a);
      SplitHasSmallRemainder(k, 2 * p, x, y);
    }
  }

  // ----- Three primes -----

  lemma CubeOf(c: int, k: nat, x: int)
    requires Pow(c, k) == x
    ensures Pow(c, k * 3) == x * x * x
  {
    PowMul(c, k, 3);
    assert Pow(x, 1) == x && Pow(x, 2) == x * x;
  }

  lemma NextPower(c: int, k: nat, x: int)
    requires Pow(c, k) == x
    ensures Pow(c, k + 1) == x * c
  {}

  lemma SmallPowers()
    ensures Pow(2, 25) == 33554432 && Pow(2, 27) == 134217728 && Pow(2, 28) == 268435456
  {
    NextPower(2, 0, 1);
    NextPower(2, 1, 2);
    CubeOf(2, 1, 2);
    CubeOf(2, 3, 8);
    CubeOf(2, 9, 512);
    NextPower(2, 27, 134217728);
    assert Pow(2, 27) == 2 * Pow(2, 26) == 4 * Pow(2, 25);
  }

  lemma FirstPrime()
    ensures IsPrime(2483027969)
  {
    var chain :=
      Even(3, Even(9, Odd(81, Even(19683, Odd(387420489, Even(870726350, Even(896984247, Even(2008687737,
      Even(2452311261, Even(284528830, Even(1267781024, Even(244619507, Even(1122614684, Even(270997847,
      Even(155241853, Even(1826444633, Even(2416596405, Even(44427233, Even(235254437, Even(231195456,
      Even(287446892, Even(282645616, Even(2136916465, Even(340498630, Even(2221359034, Even(555077392,
      Even(548763410, Even(664479698, Even(1541690611, Even(435835070,
      Last(2483027968)))))))))))))))))))))))))))))));
    var part1 := chain.rest.rest.rest.rest.rest.rest.rest.rest.rest.rest;
    var part2 := part1.rest.rest.rest.rest.rest.rest.rest.rest.rest.rest;
    assert IsChain(2483027969, 3, part2, 1212416, 1241513984, 2483027968);
    assert IsChain(2483027969, 3, part1, 1184, 1241513984, 2483027968);
    assert IsChain(2483027969, 3, chain, 1, 1241513984, 2483027968);
    SmallPowers();
    FromCertificate(2483027969, 37, 26, 33554432, 3, chain);
  }

  lemma SecondPrime()
    ensures IsPrime(3489660929)
  {
    var chain :=
      Odd(3, Even(27, Odd(729, Even(1594323, Even(1392672017, Even(1178393024, Even(2206155841, Even(2106507513,
      Even(1139259149, Even(1143890192, Even(1882435536, Even(3373763992, Even(758575992, Even(72934420,
      Even(3369885469, Even(725028937, Even(1030533309, Even(962117947, Even(3231347667, Even(1005229295,
      Even(340708175, Even(731827882, Even(1938306374, Even(424291397, Even(2792923286, Even(3290428437,
      Even(1424003439, Even(1513900834, Even(1054308003, Even(1841841630,
      Last(3489660928)))))))))))))))))))))))))))))));
    var part1 := chain.rest.rest.rest.rest.rest.rest.rest.rest.rest.rest;
    var part2 := part1.rest.rest.rest.rest.rest.rest.rest.rest.rest.rest;
    assert IsChain(3489660929, 3, part2, 1703936, 1744830464, 3489660928);
    assert IsChain(3489660929, 3, part1, 1664, 1744830464, 3489660928);
    assert IsChain(3489660929, 3, chain, 1, 1744830464, 3489660928);
    SmallPowers();
    FromCertificate(3489660929, 13, 28, 134217728, 3, chain);
  }

  /** The chain of a prime less than 2^32 below 2^63, in three parts. */
  function LargeChain(): Chain {
    Odd(3, Odd(27, Odd(2187, Odd(14348907, Odd(617673396283947, Odd(7055265186294734632, Odd(8351804496040121969,
    Odd(7514467043249037976, Odd(5057513124889950628, Odd(423343390478689084, Odd(2222223292648521449,
    Odd(8547321950489339707, Odd(6444762644367773343, Odd(5546128539309823444, Odd(2039686538909442961,
    Odd(6846702358527035348, Odd(4440366091512192893, Odd(4126116602351809237, Odd(222129423619625062,
    Odd(8496988434341848922, Odd(8586190701384946447, LargeMiddle())))))))))))))))))))))
  }

  function LargeMiddle(): Chain {
    Odd(2220789920823801118, Odd(6674002184316001652, Odd(7275366288556770009, Odd(1505199705066130542,
    Odd(4656598693822058324, Odd(2825290157920111469, Odd(6836063407755786931, Odd(5253195805372106607,
    Odd(6626985543803226305, Even(7448207679294215168, Odd(6611206867369813656, Odd(5770397627226638900,
    Even(757303968988884750, Even(3311948905571585934, Even(9048446165777716869, Even(4832343990653789535,
    Even(5774392626872982294, Even(254252993809198329, Even(6621488064372368810, Even(5794042640171121033,
    LargeEnd()))))))))))))))))))))
  }

  function LargeEnd(): Chain {
    Even(4559501963988143302, Even(147185355230234892, Even(4579128562430328104, Even(6841864254274289704,
    Even(2319168673308420132, Even(4081544854795904420, Even(1743190060141854614, Even(1738778305819671467,
    Even(3950887387253416123, Even(3180738825240391117, Even(821831961638217365, Even(3311196397625376967,
    Even(1742029172173614832, Even(3565558921064696772, Even(3925987784890064167, Even(5483219047904486248,
    Even(7669703501916729716, Even(2922629543119784798, Even(4793666641289551181, Even(4077218726525708314,
    Last(9223372034170421248)))))))))))))))))))))
  }

  lemma IsLargeEnd()
    ensures IsChain(9223372034170421249, 3, LargeEnd(), 4398046509824, 4611686017085210624, 9223372034170421248)
  {
    var half := LargeEnd().rest.rest.rest.rest.rest.rest.rest.rest.rest.rest;
    assert IsChain(9223372034170421249, 3, half, 4503599626059776, 4611686017085210624, 9223372034170421248);
  }

  lemma IsLargeMiddle()
    ensures IsChain(9223372034170421249, 3, LargeMiddle(), 4194303, 4611686017085210624, 9223372034170421248)
  {
    IsLargeEnd();
    var half := LargeMiddle().rest.rest.rest.rest.rest.rest.rest.rest.rest.rest;
    assert IsChain(9223372034170421249, 3, half, 4294967294, 4611686017085210624, 9223372034170421248);
  }

  lemma IsLargeChain()
    ensures IsChain(9223372034170421249, 3, LargeChain(), 1, 4611686017085210624, 9223372034170421248)
  {
    IsLargeMiddle();
    var half := LargeChain().rest.rest.rest.rest.rest.rest.rest.rest.rest.rest;
    assert IsChain(9223372034170421249, 3, half, 2047, 4611686017085210624, 9223372034170421248);
  }

  lemma LargePrime()
    ensures IsPrime(9223372034170421249)
  {
    IsLargeChain();
    SmallPowers();
    FromCertificate(9223372034170421249, 17179869179, 29, 268435456, 3, LargeChain());
  }
}
