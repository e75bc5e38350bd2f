/** Hamming's single-error-correcting code with parity bits at the powers of two. */
module Hamming {
  import opened BitStreams

  // ----- Bits of natural numbers -----

  function Bit(x: nat, i: nat): bool {
    if i == 0 then x % 2 == 1 else Bit(x / 2, i - 1)
  }

  function BitAnd(a: nat, b: nat): nat {
    if a == 0 || b == 0 then 0
    else (if a % 2 == 1 && b % 2 == 1 then 1 else 0) + 2 * BitAnd(a / 2, b / 2)
  }

  ghost function BitXor(a: nat, b: nat): nat
    decreases a + b
  {
    if a == 0 && b == 0 then 0
    else (if a % 2 != b % 2 then 1 else 0) + 2 * BitXor(a / 2, b / 2)
  }

  lemma {:induction false} ZeroHasNoBits(i: nat)
    ensures !Bit(0, i)
  {
    if i > 0 {
      ZeroHasNoBits(i - 1);
    }
  }

  lemma {:induction false} BitOfXor(a: nat, b: nat, i: nat)
    ensures Bit(BitXor(a, b), i) == (Bit(a, i) != Bit(b, i))
    decreases i
  {
    if a == 0 && b == 0 {
      ZeroHasNoBits(i);
    } else if i > 0 {
      assert BitXor(a, b) / 2 == BitXor(a / 2, b / 2);
      BitOfXor(a / 2, b / 2, i - 1);
    }
  }

  lemma {:induction false} SameBits(a: nat, b: nat, r: nat)
    requires a < Pow2(r) && b < Pow2(r) && forall i :: 0 <= i < r ==> Bit(a, i) == Bit(b, i)
    ensures a == b
  {
    if r > 0 {
      forall i | 0 <= i < r - 1
        ensures Bit(a / 2, i) == Bit(b / 2, i)
      {
        assert Bit(a, i + 1) == Bit(b, i + 1);
      }
      SameBits(a / 2, b / 2, r - 1);
      assert Bit(a, 0) == Bit(b, 0);
    }
  }

  lemma {:induction false} XorBound(a: nat, b: nat, r: nat)
    requires a < Pow2(r) && b < Pow2(r)
    ensures BitXor(a, b) < Pow2(r)
  {
    if r > 0 && (a > 0 || b > 0) {
      XorBound(a / 2, b / 2, r - 1);
    }
  }

  /** A power of two has exactly one bit. */
  lemma {:induction false} BitOfPow2(k: nat, i: nat)
    ensures Bit(Pow2(k), i) == (i == k)
  {
    if i > 0 {
      if k == 0 {
        ZeroHasNoBits(i - 1);
      } else {
        BitOfPow2(k - 1, i - 1);
      }
    }
  }

  /** Masking with 1 << i tests bit i. */
  lemma {:induction false} MaskTestsBit(j: nat, i: nat)
    ensures BitAnd(j, Pow2(i)) != 0 <==> Bit(j, i)
    decreases i
  {
    if j == 0 {
      ZeroHasNoBits(i);
    } else if i > 0 {
      MaskTestsBit(j / 2, i - 1);
    } else {
      assert BitAnd(j / 2, 0) == 0;
    }
  }

  predicate IsPowerOfTwo(n: nat) {
    n > 0 && BitAnd(n, n - 1) == 0
  }

  ghost predicate IsPow2(n: nat) {
    exists i: nat :: n == Pow2(i)
  }

  lemma HalvePow2(n: nat)
    requires n > 1
    ensures IsPow2(n) <==> n % 2 == 0 && IsPow2(n / 2)
  {
    if IsPow2(n) {
      var i: nat :| n == Pow2(i);
      assert n == 2 * Pow2(i - 1);
    }
    if n % 2 == 0 && IsPow2(n / 2) {
      var i: nat :| n / 2 == Pow2(i);
      assert n == Pow2(i + 1);
    }
  }

  /** The bit trick recognises exactly the powers of two. */
  lemma {:induction false} PowerOfTwoIff(n: nat)
    ensures IsPowerOfTwo(n) <==> IsPow2(n)
    decreases n
  {
    if n == 0 {
      assert forall i: nat :: Pow2(i) != 0;
    } else if n == 1 {
      assert 1 == Pow2(0);
    } else {
      HalvePow2(n);
      PowerOfTwoIff(n / 2);
      if n % 2 == 1 {
        assert (n - 1) / 2 == n / 2;
        MaskSelf(n / 2);
      } else {
        assert (n - 1) / 2 == n / 2 - 1;
      }
    }
  }

  lemma {:induction false} MaskSelf(a: nat)
    ensures BitAnd(a, a) == a
  {
    if a > 0 {
      MaskSelf(a / 2);
    }
  }

  // ----- Parities and the syndrome -----

  /** A word uses positions 1 to n; position 0 is never read. */
  type Word = w: seq<bool> | |w| >= 1 witness [false]

  /** Parity of the set positions among 1..m that have bit i in their number. */
  ghost function Parity(w: Word, i: nat, m: nat): bool
    requires m < |w|
  {
    if m == 0 then false else Parity(w, i, m - 1) != (w[m] && Bit(m, i))
  }

  /** The exclusive or of all set positions up to m. */
  ghost function XorOfPositions(w: Word, m: nat): nat
    requires m < |w|
  {
    if m == 0 then 0 else BitXor(XorOfPositions(w, m - 1), if w[m] then m else 0)
  }

  lemma {:induction false} XorHoldsParities(w: Word, i: nat, m: nat)
    requires m < |w|
    ensures Bit(XorOfPositions(w, m), i) == Parity(w, i, m)
  {
    if m == 0 {
      ZeroHasNoBits(i);
    } else {
      XorHoldsParities(w, i, m - 1);
      BitOfXor(XorOfPositions(w, m - 1), if w[m] then m else 0, i);
      ZeroHasNoBits(i);
    }
  }

  lemma {:induction false} XorOfPositionsBound(w: Word, m: nat, r: nat)
    requires m < |w| && m < Pow2(r)
    ensures XorOfPositions(w, m) < Pow2(r)
  {
    if m > 0 {
      XorOfPositionsBound(w, m - 1, r);
      XorBound(XorOfPositions(w, m - 1), if w[m] then m else 0, r);
    }
  }

  /** The number that the first r parity checks spell. */
  ghost function Syndrome(w: Word, n: nat, r: nat): nat
    requires n < |w|
  {
    if r == 0 then 0 else Syndrome(w, n, r - 1) + if Parity(w, r - 1, n) then Pow2(r - 1) else 0
  }

  lemma {:induction false} HighBit(x: nat, r: nat, i: nat)
    requires x < Pow2(r)
    ensures i >= r ==> !Bit(x, i)
    ensures Bit(x + Pow2(r), i) == (Bit(x, i) || i == r)
    decreases r, i
  {
    if r == 0 {
      ZeroHasNoBits(i);
      BitOfPow2(0, i);
    } else if i > 0 {
      HighBit(x / 2, r - 1, i - 1);
      assert (x + Pow2(r)) / 2 == x / 2 + Pow2(r - 1);
    } else {
      assert Pow2(r) % 2 == 0;
    }
  }

  lemma {:induction false} SyndromeBits(w: Word, n: nat, r: nat)
    requires n < |w|
    ensures Syndrome(w, n, r) < Pow2(r)
    ensures forall i :: 0 <= i < r ==> Bit(Syndrome(w, n, r), i) == Parity(w, i, n)
  {
    if r > 0 {
      SyndromeBits(w, n, r - 1);
      forall i | 0 <= i < r
        ensures Bit(Syndrome(w, n, r), i) == Parity(w, i, n)
      {
        HighBit(Syndrome(w, n, r - 1), r - 1, i);
      }
    }
  }

  /** The syndrome is the exclusive or of all positions that hold a one. */
  lemma SyndromeIsXor(w: Word, n: nat, r: nat)
    requires n < |w| && n < Pow2(r)
    ensures Syndrome(w, n, r) == XorOfPositions(w, n)
  {
    SyndromeBits(w, n, r);
    XorOfPositionsBound(w, n, r);
    forall i | 0 <= i < r
      ensures Bit(XorOfPositions(w, n), i) == Parity(w, i, n)
    {
      XorHoldsParities(w, i, n);
    }
    SameBits(Syndrome(w, n, r), XorOfPositions(w, n), r);
  }

  function Flip(w: Word, e: nat): (v: Word)
    requires e < |w|
  {
    w[e := !w[e]]
  }

  lemma {:induction false} FlipChangesParity(w: Word, e: nat, i: nat, m: nat)
    requires 1 <= e < |w| && m < |w|
    ensures Parity(Flip(w, e), i, m) == (Parity(w, i, m) != (e <= m && Bit(e, i)))
  {
    if m > 0 {
      FlipChangesParity(w, e, i, m - 1);
    }
  }

  /** Flipping position e adds e to the syndrome. */
  lemma FlipChangesSyndrome(w: Word, e: nat, n: nat, r: nat)
    requires 1 <= e <= n < |w| && n < Pow2(r)
    ensures Syndrome(Flip(w, e), n, r) == BitXor(Syndrome(w, n, r), e)
  {
    SyndromeBits(w, n, r);
    SyndromeBits(Flip(w, e), n, r);
    XorBound(Syndrome(w, n, r), e, r);
    forall i | 0 <= i < r
      ensures Bit(Syndrome(Flip(w, e), n, r), i) == Bit(BitXor(Syndrome(w, n, r), e), i)
    {
      FlipChangesParity(w, e, i, n);
      BitOfXor(Syndrome(w, n, r), e, i);
    }
    SameBits(Syndrome(Flip(w, e), n, r), BitXor(Syndrome(w, n, r), e), r);
  }

  // ----- Decoding -----

  /** The bits at the positions 1..m that are not powers of two. */
  function Extract(w: Word, m: nat): seq<bool>
    requires m < |w|
  {
    if m == 0 then [] else Extract(w, m - 1) + if IsPowerOfTwo(m) then [] else [w[m]]
  }

  /** All parity checks pass. */
  ghost predicate IsCodeword(w: Word, n: nat, r: nat)
    requires n < |w|
  {
    forall i :: 0 <= i < r ==> !Parity(w, i, n)
  }

  /** The word after correction. */
  ghost function Corrected(w: Word, n: nat, r: nat): Word
    requires n < |w|
  {
    if 0 < Syndrome(w, n, r) <= n then Flip(w, Syndrome(w, n, r)) else w
  }

  lemma {:induction false} CleanSyndrome(w: Word, n: nat, r: nat)
    requires n < |w| && IsCodeword(w, n, r)
    ensures Syndrome(w, n, r) == 0
  {
    if r > 0 {
      CleanSyndrome(w, n, r - 1);
    }
  }

  lemma {:induction false} XorZero(a: nat)
    ensures BitXor(0, a) == a
  {
    if a > 0 {
      XorZero(a / 2);
    }
  }

  /** A codeword decodes to itself; so does a codeword with any one position flipped, and the syndrome names it. */
  lemma CorrectsOneError(w: Word, e: nat, n: nat, r: nat)
    requires 1 <= e <= n < |w| && n < Pow2(r) && IsCodeword(w, n, r)
    ensures Syndrome(w, n, r) == 0 && Corrected(w, n, r) == w
    ensures Syndrome(Flip(w, e), n, r) == e && Corrected(Flip(w, e), n, r) == w
  {
    CleanSyndrome(w, n, r);
    FlipChangesSyndrome(w, e, n, r);
    XorZero(e);
  }

  lemma {:induction false} XorDifferent(a: nat, b: nat)
    ensures BitXor(a, b) == 0 <==> a == b
    decreases a + b
  {
    if a > 0 || b > 0 {
      XorDifferent(a / 2, b / 2);
    }
  }

  /** Two flipped positions always show, though the correction then changes the word at their exclusive or. */
  lemma DetectsTwoErrors(w: Word, e: nat, f: nat, n: nat, r: nat)
    requires 1 <= e <= n < |w| && 1 <= f <= n && e != f && n < Pow2(r) && IsCodeword(w, n, r)
    ensures Syndrome(Flip(Flip(w, e), f), n, r) == BitXor(e, f) != 0
  {
    CorrectsOneError(w, e, n, r);
    FlipChangesSyndrome(Flip(w, e), f, n, r);
    XorDifferent(e, f);
  }

  // ----- How many parity bits -----

  /** The number of positions among 1..m that carry data. */
  function DataPositions(m: nat): nat {
    if m == 0 then 0 else DataPositions(m - 1) + if IsPowerOfTwo(m) then 0 else 1
  }

  lemma {:induction false} Pow2Monotone(a: nat, b: nat)
    requires a < b
    ensures Pow2(a) < Pow2(b)
  {
    if a + 1 < b {
      Pow2Monotone(a, b - 1);
    }
  }

  lemma {:induction false} Pow2Exceeds(s: nat)
    ensures s < Pow2(s)
  {
    if s > 0 {
      Pow2Exceeds(s - 1);
    }
  }

  lemma NoPow2Between(s: nat, m: nat)
    requires Pow2(s) <= m < Pow2(s + 1)
    ensures IsPowerOfTwo(m) <==> m == Pow2(s)
  {
    PowerOfTwoIff(m);
    if IsPow2(m) {
      var i: nat :| m == Pow2(i);
      if i < s {
        Pow2Monotone(i, s);
      } else if s + 1 < i {
        Pow2Monotone(s + 1, i);
      }
    }
  }

  /** Of the positions up to m, exactly those at 1, 2, 4, ..., 2^s are taken by parity bits. */
  lemma {:induction false} DataPositionsCount(m: nat, s: nat)
    requires Pow2(s) <= m < Pow2(s + 1)
    ensures DataPositions(m) + s + 1 == m
    decreases m
  {
    NoPow2Between(s, m);
    if m == 1 {
      Pow2Exceeds(s);
      assert DataPositions(0) == 0;
    } else if m == Pow2(s) {
      DataPositionsCount(m - 1, s - 1);
    } else {
      DataPositionsCount(m - 1, s);
    }
  }

  /** The number of parity bits r fits k data bits: the least r >= 1 with 2^r >= k + r + 1. */
  ghost predicate Fits(k: nat, r: nat) {
    r >= 1 && Pow2(r) >= k + r + 1 && (r == 1 || Pow2(r - 1) < k + r)
  }

  method CalculateR(k: nat) returns (r: nat)
    ensures Fits(k, r)
  {
    r := 1;
    while Pow2(r) < k + r + 1
      invariant r >= 1 && (r == 1 || Pow2(r - 1) < k + r)
      decreases k + r + 1 - Pow2(r)
    {
      r := r + 1;
    }
  }

  lemma FitsRange(k: nat, r: nat)
    requires Fits(k, r)
    ensures Pow2(r - 1) <= k + r < Pow2(r) && DataPositions(k + r) == k
    ensures forall i :: 0 <= i < r ==> 1 <= Pow2(i) <= k + r
  {
    DataPositionsCount(k + r, r - 1);
    forall i | 0 <= i < r
      ensures 1 <= Pow2(i) <= k + r
    {
      if i < r - 1 {
        Pow2Monotone(i, r - 1);
      }
    }
  }

  // ----- Encoding -----

  /** Position j carries the datum with as many data positions before it. */
  lemma {:induction false} ExtractAt(w: Word, m: nat, j: nat)
    requires m < |w| && 1 <= j <= m && !IsPowerOfTwo(j)
    ensures DataPositions(j - 1) < |Extract(w, m)| && Extract(w, m)[DataPositions(j - 1)] == w[j]
  {
    ExtractStep(w, m);
    if j < m {
      ExtractAt(w, m - 1, j);
    }
  }

  lemma ExtractStep(w: Word, m: nat)
    requires 1 <= m < |w|
    ensures Extract(w, m - 1) <= Extract(w, m) && |Extract(w, m - 1)| == DataPositions(m - 1)
    ensures !IsPowerOfTwo(m) ==> Extract(w, m) == Extract(w, m - 1) + [w[m]]
  {
    ExtractLength(w, m - 1);
  }

  lemma {:induction false} ExtractLength(w: Word, m: nat)
    requires m < |w|
    ensures |Extract(w, m)| == DataPositions(m)
  {
    if m > 0 {
      ExtractLength(w, m - 1);
    }
  }

  lemma {:induction false} ExtractIgnoresParity(w: Word, v: Word, m: nat)
    requires m < |w| == |v|
    requires forall j :: 1 <= j <= m && !IsPowerOfTwo(j) ==> w[j] == v[j]
    ensures Extract(w, m) == Extract(v, m)
  {
    if m > 0 {
      ExtractIgnoresParity(w, v, m - 1);
    }
  }

  lemma {:induction false} DataPositionsMonotone(m: nat, n: nat)
    requires m <= n
    ensures DataPositions(m) <= DataPositions(n)
  {
    if m < n {
      DataPositionsMonotone(m, n - 1);
    }
  }

  /** Storing the next datum at position i extends what has been stored before it. */
  lemma StoreDatum(w: Word, v: Word, i: nat, data: seq<bool>, k: nat)
    requires 1 <= i < |w| == |v| && !IsPowerOfTwo(i) && k < |data| && v == w[i := data[k]]
    requires Extract(w, i - 1) == data[..k] && DataPositions(i - 1) == k
    ensures Extract(v, i) == data[..k + 1] && DataPositions(i) == k + 1
  {
    ExtractIgnoresParity(w, v, i - 1);
    assert data[..k + 1] == data[..k] + [data[k]];
  }

  /** Fills the data positions from left to right. */
  method PlaceData(data: seq<bool>, codeword: array<bool>, n: nat)
    requires codeword.Length == n + 1 && DataPositions(n) == |data|
    requires forall j :: 0 <= j <= n ==> !codeword[j]
    modifies codeword
    ensures Extract(codeword[..], n) == data
    ensures forall j :: 0 <= j <= n && (j == 0 || IsPowerOfTwo(j)) ==> !codeword[j]
  {
    var dataIdx := 0;
    for i := 1 to n + 1
      invariant dataIdx == DataPositions(i - 1) <= |data|
      invariant Extract(codeword[..], i - 1) == data[..dataIdx]
      invariant forall j :: 0 <= j <= n && (j == 0 || j >= i || IsPowerOfTwo(j)) ==> !codeword[j]
    {
      DataPositionsMonotone(i, n);
      assert IsPowerOfTwo(i) ==> DataPositions(i) == dataIdx;
      if !IsPowerOfTwo(i) {
        ghost var before := codeword[..];
        codeword[i] := data[dataIdx];
        StoreDatum(before, codeword[..], i, data, dataIdx);
        dataIdx := dataIdx + 1;
      }
    }
  }

  /** Counts the ones that parity check i covers, apart from the parity position itself if skip is set. */
  method CountOnes(w: array<bool>, n: nat, i: nat, skip: bool) returns (ones: nat)
    requires w.Length == n + 1 && (skip && Pow2(i) <= n ==> !w[Pow2(i)])
    ensures (ones % 2 == 1) == Parity(w[..], i, n)
  {
    var pos := Pow2(i);
    ones := 0;
    for j := 1 to n + 1
      invariant (ones % 2 == 1) == Parity(w[..], i, j - 1)
    {
      MaskTestsBit(j, i);
      if BitAnd(j, pos) != 0 {
        if !(skip && j == pos) && w[j] {
          ones := ones + 1;
        }
      }
    }
  }

  lemma ParityBitSet(w: Word, v: Word, i: nat, n: nat, r: nat)
    requires n + 1 == |w| == |v| && i < r && 1 <= Pow2(i) <= n && !w[Pow2(i)]
    requires v == w[Pow2(i) := Parity(w, i, n)]
    requires forall k :: 0 <= k < i ==> !Parity(w, k, n)
    ensures forall k :: 0 <= k <= i ==> !Parity(v, k, n)
    ensures Extract(v, n) == Extract(w, n)
  {
    var pos := Pow2(i);
    PowerOfTwoIff(pos);
    ExtractIgnoresParity(w, v, n);
    if Parity(w, i, n) {
      assert v == Flip(w, pos);
      forall k | 0 <= k <= i
        ensures !Parity(v, k, n)
      {
        FlipChangesParity(w, pos, k, n);
        BitOfPow2(i, k);
      }
    } else {
      assert v == w;
    }
  }

  method EncodeHamming(data: seq<bool>) returns (codeword: array<bool>, n: nat, r: nat)
    ensures fresh(codeword) && codeword.Length == n + 1
    ensures Fits(|data|, r) && n == |data| + r < Pow2(r)
    ensures IsCodeword(codeword[..], n, r) && Extract(codeword[..], n) == data
  {
    r := CalculateR(|data|);
    n := |data| + r;
    FitsRange(|data|, r);
    codeword := new bool[n + 1](_ => false);
    PlaceData(data, codeword, n);
    forall k | 0 <= k < r
      ensures IsPowerOfTwo(Pow2(k))
    {
      PowerOfTwoIff(Pow2(k));
    }
    for i := 0 to r
      invariant Extract(codeword[..], n) == data
      invariant forall k :: 0 <= k < i ==> !Parity(codeword[..], k, n)
      invariant forall k :: i <= k < r ==> !codeword[Pow2(k)]
    {
      var pos := Pow2(i);
      var ones := CountOnes(codeword, n, i, true);
      ghost var before := codeword[..];
      codeword[pos] := if ones % 2 == 0 then false else true;
      assert codeword[..] == before[pos := Parity(before, i, n)];
      ParityBitSet(before, codeword[..], i, n, r);
      forall k | i + 1 <= k < r
        ensures !codeword[Pow2(k)]
      {
        Pow2Monotone(i, k);
      }
    }
  }

  /** Words that agree on the data positions differ in parity i exactly if they differ at position 2^i. */
  lemma {:induction false} ParityPinsBit(w: Word, v: Word, i: nat, m: nat)
    requires m < |w| == |v|
    requires forall j :: 1 <= j <= m && !IsPowerOfTwo(j) ==> w[j] == v[j]
    ensures (Parity(w, i, m) != Parity(v, i, m)) == (Pow2(i) <= m && w[Pow2(i)] != v[Pow2(i)])
  {
    if m > 0 {
      ParityPinsBit(w, v, i, m - 1);
      BitOfPow2(i, i);
      if IsPowerOfTwo(m) && m != Pow2(i) {
        PowerOfTwoIff(m);
        var k: nat :| m == Pow2(k);
        BitOfPow2(k, i);
      }
    }
  }

  lemma {:induction false} SameExtract(w: Word, v: Word, m: nat)
    requires m < |w| == |v| && Extract(w, m) == Extract(v, m)
    ensures forall j :: 1 <= j <= m && !IsPowerOfTwo(j) ==> w[j] == v[j]
  {
    if m > 0 {
      ExtractLength(w, m - 1);
      ExtractLength(v, m - 1);
      assert Extract(w, m)[..DataPositions(m - 1)] == Extract(w, m - 1);
      assert Extract(v, m)[..DataPositions(m - 1)] == Extract(v, m - 1);
      SameExtract(w, v, m - 1);
      if !IsPowerOfTwo(m) {
        assert Extract(w, m)[DataPositions(m - 1)] == w[m] && Extract(v, m)[DataPositions(m - 1)] == v[m];
      }
    }
  }

  /** The data determine the codeword: there is one encoding. */
  lemma EncodingIsUnique(w: Word, v: Word, n: nat, r: nat, j: nat)
    requires n < |w| == |v| && n < Pow2(r) && IsCodeword(w, n, r) && IsCodeword(v, n, r)
    requires Extract(w, n) == Extract(v, n) && 1 <= j <= n
    ensures w[j] == v[j]
  {
    SameExtract(w, v, n);
    if IsPowerOfTwo(j) {
      PowerOfTwoIff(j);
      var i: nat :| j == Pow2(i);
      if r < i {
        Pow2Monotone(r, i);
      }
      ParityPinsBit(w, v, i, n);
    }
  }

  // ----- The receiver -----

  method ComputeSyndrome(received: array<bool>, n: nat, r: nat) returns (syndrome: nat)
    requires received.Length == n + 1
    ensures syndrome == Syndrome(received[..], n, r)
  {
    syndrome := 0;
    for i := 0 to r
      invariant syndrome == Syndrome(received[..], n, i)
    {
      var ones := CountOnes(received, n, i, false);
      if ones % 2 != 0 {
        syndrome := syndrome + Pow2(i);
      }
    }
  }

  method ReadData(received: array<bool>, n: nat) returns (data: seq<bool>)
    requires received.Length == n + 1
    ensures data == Extract(received[..], n)
  {
    data := [];
    for i := 1 to n + 1
      invariant data == Extract(received[..], i - 1)
    {
      if !IsPowerOfTwo(i) {
        data := data + [received[i]];
      }
    }
  }

  method DecodeAndCorrect(received: array<bool>, n: nat, r: nat) returns (syndrome: nat, data: seq<bool>)
    requires received.Length == n + 1
    modifies received
    ensures syndrome == Syndrome(old(received[..]), n, r)
    ensures received[..] == Corrected(old(received[..]), n, r)
    ensures forall j :: 1 <= j <= n ==> received[j] == (old(received[j]) != (j == syndrome))
    ensures data == Extract(received[..], n)
  {
    syndrome := ComputeSyndrome(received, n, r);
    if syndrome > 0 && syndrome <= n {
      received[syndrome] := !received[syndrome];
    }
    data := ReadData(received, n);
  }

  /** The demonstration: encode, flip one position unless it is out of range, decode. The data come back. */
  method SendWithError(data: seq<bool>, errorPos: nat) returns (syndrome: nat, recovered: seq<bool>)
    ensures recovered == data
    ensures exists r :: Fits(|data|, r) && syndrome == if 1 <= errorPos <= |data| + r then errorPos else 0
  {
    var word, n, r := EncodeHamming(data);
    ghost var sent := word[..];
    if 1 <= errorPos <= n {
      word[errorPos] := !word[errorPos];
      assert word[..] == Flip(sent, errorPos);
      CorrectsOneError(sent, errorPos, n, r);
    } else {
      CleanSyndrome(sent, n, r);
    }
    syndrome, recovered := DecodeAndCorrect(word, n, r);
  }
}
