/** Cyclic redundancy check by division of polynomials over GF(2), leading coefficient first. */
module Crc {

  type Word = seq<bool>

  function Zeros(n: nat): (z: Word)
    ensures |z| == n
  {
    seq(n, _ => false)
  }

  ghost predicate AllZero(w: Word) {
    forall i :: 0 <= i < |w| ==> !w[i]
  }

  function Xor(u: Word, v: Word): (w: Word)
    requires |u| == |v|
    ensures |w| == |u|
  {
    seq(|u|, i requires 0 <= i < |u| => u[i] != v[i])
  }

  /** The generator g added at the front of w. */
  function XorFront(w: Word, g: Word): (r: Word)
    requires |g| <= |w|
    ensures |r| == |w|
  {
    seq(|w|, i requires 0 <= i < |w| => if i < |g| then w[i] != g[i] else w[i])
  }

  /** One division step: clears the leading coefficient if it is set. */
  function Step(w: Word, g: Word): (r: Word)
    requires |g| <= |w| && |w| > 0
    ensures |r| == |w|
  {
    if w[0] then XorFront(w, g) else w
  }

  /** The remainder of w divided by g, |g| - 1 bits long. */
  function Rem(w: Word, g: Word): (r: Word)
    requires 1 <= |g| <= |w| + 1
    ensures |r| == |g| - 1
    decreases |w|
  {
    if |w| < |g| then w else Rem(Step(w, g)[1..], g)
  }

  /** The product of a quotient and the generator: the shifted generators that q selects, added up. */
  ghost function Multiple(q: Word, g: Word): (w: Word)
    requires |g| >= 1
    ensures |w| == |q| + |g| - 1
  {
    if q == [] then Zeros(|g| - 1)
    else
      var shifted := [false] + Multiple(q[1..], g);
      if q[0] then XorFront(shifted, g) else shifted
  }

  // ----- Division against multiplication -----

  /** Dividing a multiple leaves nothing. */
  lemma {:induction false} MultipleHasNoRemainder(q: Word, g: Word)
    requires |g| >= 1 && g[0]
    ensures AllZero(Rem(Multiple(q, g), g))
  {
    if q != [] {
      var shifted := [false] + Multiple(q[1..], g);
      assert Step(Multiple(q, g), g) == shifted;
      assert shifted[1..] == Multiple(q[1..], g);
      MultipleHasNoRemainder(q[1..], g);
    }
  }

  /** What leaves no remainder is a multiple; the quotient is what the division found. */
  lemma {:induction false} NoRemainderIsMultiple(w: Word, g: Word) returns (q: Word)
    requires 1 <= |g| <= |w| + 1 && g[0] && AllZero(Rem(w, g))
    ensures |q| == |w| - |g| + 1 && w == Multiple(q, g)
    decreases |w|
  {
    if |w| < |g| {
      q := [];
      assert w == Zeros(|g| - 1);
    } else {
      var next := Step(w, g);
      var q' := NoRemainderIsMultiple(next[1..], g);
      q := [w[0]] + q';
      assert q[1..] == q' && next == [false] + Multiple(q', g);
      assert w[0] ==> w == XorFront(next, g);
    }
  }

  // ----- Linearity -----

  lemma {:induction false} RemLinear(u: Word, v: Word, g: Word)
    requires |u| == |v| && 1 <= |g| <= |u| + 1
    ensures Rem(Xor(u, v), g) == Xor(Rem(u, g), Rem(v, g))
    decreases |u|
  {
    if |u| >= |g| {
      var u', v' := Step(u, g), Step(v, g);
      assert Step(Xor(u, v), g) == Xor(u', v');
      assert Xor(u', v')[1..] == Xor(u'[1..], v'[1..]);
      RemLinear(u'[1..], v'[1..], g);
    }
  }

  lemma {:induction false} RemOfShort(k: nat, t: Word, g: Word)
    requires |g| >= 1 && |t| == |g| - 1
    ensures Rem(Zeros(k) + t, g) == t
    decreases k
  {
    if k == 0 {
      assert Zeros(0) + t == t;
    } else {
      assert (Zeros(k) + t)[1..] == Zeros(k - 1) + t;
      RemOfShort(k - 1, t, g);
    }
  }

  // ----- Generators without a leading one -----

  /** The generator with its first bit set. */
  function Monic(g: Word): (h: Word)
    requires |g| >= 1
    ensures |h| == |g| && h[0]
  {
    g[0 := true]
  }

  /** The first bit of the generator never reaches the remainder: a step drops that place. */
  lemma {:induction false} RemMonic(w: Word, g: Word)
    requires 1 <= |g| <= |w| + 1
    ensures Rem(w, g) == Rem(w, Monic(g))
    decreases |w|
  {
    if |w| >= |g| {
      assert Step(w, g)[1..] == Step(w, Monic(g))[1..];
      RemMonic(Step(w, g)[1..], g);
    }
  }

  // ----- The program -----

  method XorOp(dividend: array<bool>, divisor: Word, start: nat)
    requires start + |divisor| <= dividend.Length
    modifies dividend
    ensures dividend[..start] == old(dividend[..start])
    ensures dividend[start..] == XorFront(old(dividend[start..]), divisor)
  {
    for i := 0 to |divisor|
      invariant forall j :: 0 <= j < dividend.Length ==>
        dividend[j] == if start <= j < start + i then old(dividend[j]) != divisor[j - start] else old(dividend[j])
    {
      dividend[start + i] := if dividend[start + i] == divisor[i] then false else true;
    }
  }

  /** The in-place division loop that sender and receiver share. */
  method Divide(temp: array<bool>, generator: Word)
    requires 1 <= |generator| <= temp.Length + 1
    modifies temp
    ensures temp[temp.Length - |generator| + 1..] == Rem(old(temp[..]), generator)
  {
    var i := 0;
    assert temp[0..] == temp[..];
    while i <= temp.Length - |generator|
      invariant 0 <= i <= temp.Length - |generator| + 1
      invariant Rem(temp[i..], generator) == Rem(old(temp[..]), generator)
    {
      ghost var rest := temp[i..];
      if temp[i] {
        XorOp(temp, generator, i);
      }
      assert temp[i..] == Step(rest, generator) && temp[i + 1..] == temp[i..][1..];
      i := i + 1;
    }
  }

  /** The check bits of the data: the remainder of the data shifted by |g| - 1 places. */
  function CheckBits(data: Word, g: Word): (r: Word)
    requires |g| >= 1
    ensures |r| == |g| - 1
  {
    Rem(data + Zeros(|g| - 1), g)
  }

  method ComputeCrc(data: Word, generator: Word) returns (remainder: Word)
    requires |generator| >= 1
    ensures remainder == CheckBits(data, generator)
  {
    var padded := data + Zeros(|generator| - 1);
    var temp := new bool[|padded|](i requires 0 <= i < |padded| => padded[i]);
    assert temp[..] == padded;
    Divide(temp, generator);
    remainder := temp[|data|..];
  }

  ghost predicate Accepted(w: Word, g: Word)
    requires 1 <= |g| <= |w| + 1
  {
    AllZero(Rem(w, g))
  }

  method CheckCrc(codeword: Word, generator: Word) returns (valid: bool)
    requires 1 <= |generator| <= |codeword| + 1
    ensures valid == Accepted(codeword, generator)
  {
    var temp := new bool[|codeword|](i requires 0 <= i < |codeword| => codeword[i]);
    assert temp[..] == codeword;
    Divide(temp, generator);
    var tail := |codeword| - |generator| + 1;
    for i := tail to |codeword|
      invariant forall j :: tail <= j < i ==> !temp[j]
    {
      if temp[i] {
        assert temp[tail..][i - tail];
        return false;
      }
    }
    assert forall j :: 0 <= j < |temp[tail..]| ==> temp[tail..][j] == temp[tail + j];
    return true;
  }

  // ----- What the check detects -----

  /** The receiver accepts exactly the sums of shifted generators, with the first bit of the generator taken as
      set. */
  lemma AcceptedIffMultiple(w: Word, g: Word)
    requires 1 <= |g| <= |w| + 1
    ensures Accepted(w, g) <==> exists q :: |q| == |w| - |g| + 1 && w == Multiple(q, Monic(g))
  {
    RemMonic(w, g);
    if Accepted(w, g) {
      var q := NoRemainderIsMultiple(w, Monic(g));
    }
    forall q | |q| == |w| - |g| + 1 && w == Multiple(q, Monic(g))
      ensures Accepted(w, g)
    {
      MultipleHasNoRemainder(q, Monic(g));
    }
  }

  /** What the sender transmits is accepted, for every generator. */
  lemma SentIsAccepted(data: Word, g: Word)
    requires |g| >= 1
    ensures Accepted(data + CheckBits(data, g), g)
  {
    var crc := CheckBits(data, g);
    var padded, tail := data + Zeros(|g| - 1), Zeros(|data|) + crc;
    assert Xor(padded, tail) == data + crc;
    RemLinear(padded, tail, g);
    RemOfShort(|data|, crc, g);
  }

  /** No other check bits are accepted. */
  lemma CheckBitsUnique(data: Word, crc: Word, g: Word)
    requires |g| >= 1 && |crc| == |g| - 1
    ensures Accepted(data + crc, g) <==> crc == CheckBits(data, g)
  {
    var right := CheckBits(data, g);
    var sent, e := data + right, Zeros(|data|) + Xor(right, crc);
    assert Xor(sent, e) == data + crc;
    SentIsAccepted(data, g);
    ErrorAcceptedAlone(sent, e, g);
    RemOfShort(|data|, Xor(right, crc), g);
    assert Rem(e, g) == Xor(right, crc);
    if AllZero(Xor(right, crc)) {
      forall i | 0 <= i < |crc|
        ensures crc[i] == right[i]
      {
        assert !Xor(right, crc)[i];
      }
    }
  }

  /** Check bits are linear in the data. */
  lemma CheckBitsLinear(a: Word, b: Word, g: Word)
    requires |a| == |b| && |g| >= 1
    ensures CheckBits(Xor(a, b), g) == Xor(CheckBits(a, g), CheckBits(b, g))
  {
    var z := Zeros(|g| - 1);
    assert Xor(a + z, b + z) == Xor(a, b) + z;
    RemLinear(a + z, b + z, g);
  }

  /** An error pattern on a valid codeword goes unnoticed exactly when the pattern alone would be accepted. */
  lemma ErrorAcceptedAlone(w: Word, e: Word, g: Word)
    requires |w| == |e| && 1 <= |g| <= |w| + 1 && Accepted(w, g)
    ensures Accepted(Xor(w, e), g) <==> Accepted(e, g)
  {
    RemLinear(w, e, g);
    var rw, re := Rem(w, g), Rem(e, g);
    assert Xor(rw, re) == re;
  }

  /** The place of the last one, if the first bit counts as one. */
  function LastOne(g: Word): (t: nat)
    requires |g| >= 1
    ensures t < |g| && Monic(g)[t] && forall i :: t < i < |g| ==> !Monic(g)[i]
  {
    if |g| == 1 || g[|g| - 1] then |g| - 1
    else
      assert Monic(g) == Monic(g[..|g| - 1]) + [false];
      LastOne(g[..|g| - 1])
  }

  /** If the last one of g is at t, a product has ones at least t places apart. */
  lemma {:induction false} MultipleIsWide(q: Word, g: Word, t: nat) returns (first: nat, last: nat)
    requires t < |g| && g[0] && g[t] && (forall i :: t < i < |g| ==> !g[i]) && !AllZero(q)
    ensures first <= last < |q|
    ensures Multiple(q, g)[first] && Multiple(q, g)[last + t]
  {
    var rest := Multiple(q[1..], g);
    if AllZero(q[1..]) {
      ZeroMultiple(q[1..], g);
      assert q[0] by {
        assert forall i :: 0 < i < |q| ==> q[i] == q[1..][i - 1];
      }
      first, last := 0, 0;
    } else {
      var first', last' := MultipleIsWide(q[1..], g, t);
      first, last := if q[0] then 0 else first' + 1, last' + 1;
      assert Multiple(q, g)[last + t] == rest[last' + t];
    }
  }

  lemma {:induction false} ZeroMultiple(q: Word, g: Word)
    requires |g| >= 1 && AllZero(q)
    ensures AllZero(Multiple(q, g))
  {
    if q != [] {
      ZeroMultiple(q[1..], g);
    }
  }

  /** A non-zero error confined to len consecutive positions starting at a. */
  ghost predicate IsBurst(e: Word, len: nat, a: nat) {
    !AllZero(e) && forall i :: 0 <= i < |e| && e[i] ==> a <= i < a + len
  }

  /** Every error within len consecutive positions of the valid word is detected. */
  ghost predicate DetectsBursts(w: Word, g: Word, len: nat)
    requires 1 <= |g| <= |w| + 1
  {
    forall e, a :: |e| == |w| && IsBurst(e, len, a) ==> !Accepted(Xor(w, e), g)
  }

  /** No product is as narrow as that. */
  lemma NarrowIsNoMultiple(q: Word, g: Word, len: nat, a: nat)
    requires |g| >= 1 && len <= LastOne(g)
    ensures !IsBurst(Multiple(q, Monic(g)), len, a)
  {
    if AllZero(q) {
      ZeroMultiple(q, Monic(g));
    } else {
      var first, last := MultipleIsWide(q, Monic(g), LastOne(g));
    }
  }

  /** Burst detection: an error confined to no more consecutive positions of a valid word than the place of the last
      one in the generator is always detected. */
  lemma BurstDetected(w: Word, e: Word, g: Word, len: nat, a: nat)
    requires |w| == |e| && 1 <= |g| <= |w| + 1 && len <= LastOne(g)
    requires Accepted(w, g) && IsBurst(e, len, a)
    ensures !Accepted(Xor(w, e), g)
  {
    ErrorAcceptedAlone(w, e, g);
    if Accepted(e, g) {
      RemMonic(e, g);
      var q := NoRemainderIsMultiple(e, Monic(g));
      NarrowIsNoMultiple(q, g, len, a);
    }
  }

  /** One position more and an error is missed: the generator itself, with its first bit set. */
  lemma GeneratorIsMissed(w: Word, g: Word) returns (e: Word)
    requires 1 <= |g| <= |w| && Accepted(w, g)
    ensures |e| == |w| && IsBurst(e, LastOne(g) + 1, 0) && Accepted(Xor(w, e), g)
  {
    var rest := Zeros(|w| - |g|);
    var q := [true] + rest;
    e := Multiple(q, Monic(g));
    assert q[1..] == rest;
    ZeroMultiple(rest, Monic(g));
    assert e[0];
    MultipleHasNoRemainder(q, Monic(g));
    RemMonic(e, g);
    ErrorAcceptedAlone(w, e, g);
  }

  /** For every generator, whatever its bits, and every valid word: the errors within len positions are all detected
      exactly if len is at most the place of the last one, or the word has no data bits. */
  lemma DetectsBurstsIff(w: Word, g: Word, len: nat)
    requires 1 <= |g| <= |w| + 1 && Accepted(w, g)
    ensures DetectsBursts(w, g, len) <==> len <= LastOne(g) || |w| < |g|
  {
    if |w| < |g| {
      NoDataNoMiss(w, g, len);
    } else if len <= LastOne(g) {
      forall e, a | |e| == |w| && IsBurst(e, len, a)
        ensures !Accepted(Xor(w, e), g)
      {
        BurstDetected(w, e, g, len, a);
      }
    } else {
      var e := GeneratorIsMissed(w, g);
      assert IsBurst(e, len, 0);
    }
  }

  /** A word without data bits is its own remainder. */
  lemma NoDataNoMiss(w: Word, g: Word, len: nat)
    requires 1 <= |g| == |w| + 1 && Accepted(w, g)
    ensures DetectsBursts(w, g, len)
  {
    forall e, a | |e| == |w| && IsBurst(e, len, a)
      ensures !Accepted(Xor(w, e), g)
    {
      ErrorAcceptedAlone(w, e, g);
      assert Rem(e, g) == e;
    }
  }

  /** The errors shorter than the generator are all detected exactly if it ends in a one; a generator of one bit has
      no such errors. */
  lemma DetectsShortBurstsIff(w: Word, g: Word)
    requires 1 <= |g| <= |w| + 1 && Accepted(w, g)
    ensures DetectsBursts(w, g, |g| - 1) <==> g[|g| - 1] || |g| == 1 || |w| < |g|
  {
    DetectsBurstsIff(w, g, |g| - 1);
  }

  /** Every single flipped bit is detected exactly if the generator has a one behind its first bit. */
  lemma DetectsFlipsIff(w: Word, g: Word)
    requires 1 <= |g| <= |w| + 1 && Accepted(w, g)
    ensures (forall i :: 0 <= i < |w| ==> !Accepted(w[i := !w[i]], g)) <==>
      (exists j :: 1 <= j < |g| && g[j]) || |w| < |g|
  {
    DetectsBurstsIff(w, g, 1);
    BehindFirst(g);
    if DetectsBursts(w, g, 1) {
      forall i | 0 <= i < |w|
        ensures !Accepted(w[i := !w[i]], g)
      {
        var e := FlipIsBurst(w, i);
      }
    } else {
      var e: Word, a: nat :| |e| == |w| && IsBurst(e, 1, a) && Accepted(Xor(w, e), g);
      BurstIsFlip(w, e, a);
    }
  }

  lemma BehindFirst(g: Word)
    requires |g| >= 1
    ensures LastOne(g) >= 1 <==> exists j :: 1 <= j < |g| && g[j]
  {
    assert forall j :: 1 <= j < |g| ==> g[j] == Monic(g)[j];
  }

  lemma FlipIsBurst(w: Word, i: nat) returns (e: Word)
    requires i < |w|
    ensures |e| == |w| && IsBurst(e, 1, i) && Xor(w, e) == w[i := !w[i]]
  {
    e := Zeros(|w|)[i := true];
    assert e[i];
    assert Xor(w, e) == w[i := !w[i]];
  }

  lemma BurstIsFlip(w: Word, e: Word, a: nat)
    requires |e| == |w| && IsBurst(e, 1, a)
    ensures a < |w| && Xor(w, e) == w[a := !w[a]]
  {
    assert Xor(w, e) == w[a := !w[a]];
  }
}
