/** The 16-bit Internet checksum: one's complement sum in a 32-bit accumulator. */
module Checksum {

  const TWO_16: nat := 0x1_0000
  const TWO_32: nat := 0x1_0000_0000

  type Word = w: nat | w < TWO_16

  ghost function Sum(words: seq<Word>): nat {
    if words == [] then 0 else Sum(words[..|words| - 1]) + words[|words| - 1]
  }

  /** The one's complement value of a sum: its residue modulo 65535, where only zero itself is zero. */
  ghost function Residue(s: nat): (r: Word) {
    if s == 0 then 0 else (s - 1) % 65535 + 1
  }

  // ----- The program -----

  /** Adds the words up in a 32-bit register. */
  method AddWords(words: seq<Word>) returns (sum: nat)
    ensures sum == Sum(words) % TWO_32
  {
    sum := 0;
    for i := 0 to |words|
      invariant sum == Sum(words[..i]) % TWO_32
    {
      assert words[..i + 1][..i] == words[..i];
      sum := (sum + words[i]) % TWO_32;
    }
    assert words[..|words|] == words;
  }

  /** Adds the carries back until none is left. */
  method FoldCarries(s: nat) returns (sum: Word)
    ensures sum == Residue(s)
  {
    var acc: nat := s;
    while acc / TWO_16 != 0
      invariant Residue(acc) == Residue(s)
      decreases acc
    {
      FoldStep(acc);
      acc := acc % TWO_16 + acc / TWO_16;
    }
    sum := acc;
  }

  lemma FoldStep(acc: nat)
    requires acc / TWO_16 != 0
    ensures var next := acc % TWO_16 + acc / TWO_16; next < acc && Residue(next) == Residue(acc)
  {
    var q, r := acc / TWO_16, acc % TWO_16;
    assert acc - 1 == 65535 * q + (r + q - 1);
    SameResidue(acc - 1, r + q - 1, q);
  }

  lemma SameResidue(a: nat, b: nat, q: nat)
    requires a == 65535 * q + b
    ensures a % 65535 == b % 65535
  {}

  method ComputeChecksum(words: seq<Word>) returns (checksum: Word)
    ensures checksum == ChecksumOf(words)
  {
    var sum := AddWords(words);
    var folded := FoldCarries(sum);
    checksum := 65535 - folded;
  }

  method VerifyChecksum(words: seq<Word>, checksum: Word) returns (ok: bool)
    ensures ok == Accepts(words, checksum)
  {
    var sum := AddWords(words);
    sum := (sum + checksum) % TWO_32;
    var folded := FoldCarries(sum);
    ok := folded == 65535;
  }

  ghost function ChecksumOf(words: seq<Word>): Word {
    65535 - Residue(Sum(words) % TWO_32)
  }

  ghost predicate Accepts(words: seq<Word>, checksum: Word) {
    Residue((Sum(words) % TWO_32 + checksum) % TWO_32) == 65535
  }

  // ----- Range -----

  lemma {:induction false} SumBound(words: seq<Word>)
    ensures Sum(words) <= 65535 * |words|
  {
    if words != [] {
      SumBound(words[..|words| - 1]);
    }
  }

  /** The accumulator holds the exact sum of up to 65537 words, and of up to 65536 words and a checksum. */
  lemma NoWrap(words: seq<Word>, checksum: Word)
    ensures |words| <= 65537 ==> Sum(words) < TWO_32
    ensures |words| <= 65536 ==> Sum(words) + checksum < TWO_32
  {
    SumBound(words);
  }

  lemma {:induction false} SumOfOnes(n: nat)
    ensures Sum(seq(n, _ => 65535)) == 65535 * n
  {
    if n > 0 {
      SumOfOnes(n - 1);
      assert seq(n, _ => 65535)[..n - 1] == seq(n - 1, _ => 65535);
    }
  }

  /** One word more, and the accumulator can wrap. */
  lemma WrapIsTight()
    ensures Sum(seq(65538, _ => 65535)) >= TWO_32
    ensures Sum(seq(65537, _ => 65535)) + 1 >= TWO_32
  {
    SumOfOnes(65538);
    SumOfOnes(65537);
  }

  // ----- Detection -----

  /** A sum is accepted exactly when it is a positive multiple of 65535. */
  lemma AcceptsIff(words: seq<Word>, checksum: Word)
    requires Sum(words) + checksum < TWO_32
    ensures Accepts(words, checksum) <==> Sum(words) + checksum > 0 && (Sum(words) + checksum) % 65535 == 0
  {
    NoModulo(Sum(words), checksum);
    PositiveMultiple(Sum(words) + checksum);
  }

  lemma NoModulo(s: nat, c: nat)
    requires s + c < TWO_32
    ensures (s % TWO_32 + c) % TWO_32 == s + c
  {}

  lemma PositiveMultiple(t: nat)
    ensures Residue(t) == 65535 <==> t > 0 && t % 65535 == 0
  {
    if t > 0 {
      var q, r := (t - 1) / 65535, (t - 1) % 65535;
      if r == 65534 {
        SameResidue(t, 0, q + 1);
      } else {
        SameResidue(t, r + 1, q);
      }
    }
  }

  /** The folded complement brings a 32-bit register to a positive multiple of 65535 without wrapping, as 2^32 - 1 is
      such a multiple. */
  lemma RegisterCompletes(s: nat)
    requires s < TWO_32
    ensures var t := s + (65535 - Residue(s)); 0 < t < TWO_32 && t % 65535 == 0
  {
    if s > 0 {
      var q, r := (s - 1) / 65535, (s - 1) % 65535;
      assert s + (65535 - Residue(s)) == 65535 * (q + 1);
      SameResidue(s + (65535 - Residue(s)), 0, q + 1);
      assert q <= 65536;
    }
  }

  /** The receiver accepts what the sender computed, for any number of words, wrapping or not. */
  lemma OwnChecksumAccepted(words: seq<Word>)
    ensures Accepts(words, ChecksumOf(words))
  {
    var s := Sum(words) % TWO_32;
    RegisterCompletes(s);
    PositiveMultiple(s + ChecksumOf(words));
  }

  lemma {:induction false} SumChanged(words: seq<Word>, i: nat, v: Word)
    requires i < |words|
    ensures Sum(words[i := v]) == Sum(words) - words[i] + v
  {
    var k := |words| - 1;
    if i == k {
      assert words[i := v][..k] == words[..k];
    } else {
      SumChanged(words[..k], i, v);
      assert words[i := v][..k] == words[..k][i := v];
    }
  }

  /** A changed word goes unnoticed exactly when 0x0000 and 0xFFFF were exchanged and this neither makes the register
      pass 2^32 nor become zero. */
  lemma ChangeUndetectedIff(words: seq<Word>, i: nat, v: Word)
    requires i < |words| && v != words[i]
    ensures Accepts(words[i := v], ChecksumOf(words)) <==>
      var register := Sum(words) % TWO_32;
      || (words[i] == 0 && v == 65535 && register + 65535 < TWO_32)
      || (words[i] == 65535 && v == 0 && register > 65535)
  {
    SumChanged(words, i, v);
    RegisterChanged(Sum(words), words[i], v);
  }

  lemma RegisterChanged(s: nat, w: Word, v: Word)
    requires s - w + v >= 0 && v != w
    ensures Residue(((s - w + v) % TWO_32 + (65535 - Residue(s % TWO_32))) % TWO_32) == 65535 <==>
      || (w == 0 && v == 65535 && s % TWO_32 + 65535 < TWO_32)
      || (w == 65535 && v == 0 && s % TWO_32 > 65535)
  {
    var r := s % TWO_32;
    NextRegister(s, v - w);
    if r - w + v < 0 {
      ChangedDown(r, w, v);
    } else if r - w + v >= TWO_32 {
      ChangedUp(r, w, v);
    } else {
      ChangedWithin(r, w, v);
    }
  }

  lemma NextRegister(s: nat, d: int)
    requires s + d >= 0 && -65535 <= d <= 65535
    ensures var r := s % TWO_32;
      (s + d) % TWO_32 == if r + d < 0 then r + d + TWO_32 else if r + d >= TWO_32 then r + d - TWO_32 else r + d
  {}

  /** The register moves by the change of the word. */
  lemma ChangedWithin(r: nat, w: Word, v: Word)
    requires r < TWO_32 && 0 <= r - w + v < TWO_32 && v != w
    ensures Residue((r - w + v + (65535 - Residue(r))) % TWO_32) == 65535 <==>
      (w == 0 && v == 65535) || (w == 65535 && v == 0 && r > 65535)
  {
    RegisterCompletes(r);
    var t := r + (65535 - Residue(r));
    LastMultiple(t);
    var x := t - w + v;
    if x < TWO_32 {
      PositiveMultiple(x);
      ShiftedMultiple(t, w, v);
    }
  }

  lemma LastMultiple(t: nat)
    requires t < TWO_32 && t % 65535 == 0
    ensures t + 65535 >= TWO_32 ==> t == TWO_32 - 1
  {}

  /** The register passes 2^32 upwards. */
  lemma ChangedUp(r: nat, w: Word, v: Word)
    requires r < TWO_32 <= r - w + v
    ensures Residue((r - w + v - TWO_32 + (65535 - Residue(r))) % TWO_32) < 65535
  {
    RegisterCompletes(r);
    var x := r - w + v - TWO_32 + (65535 - Residue(r));
    assert 0 <= x < 65535;
  }

  /** The register passes 2^32 downwards. */
  lemma ChangedDown(r: nat, w: Word, v: Word)
    requires r - w + v < 0
    ensures r < 65535 && Residue((r - w + v + TWO_32 + (65535 - Residue(r))) % TWO_32) < 65535
  {
    var x := r - w + v + TWO_32 + (65535 - Residue(r));
    assert 0 <= x - TWO_32 < 65535;
  }

  /** Up to 65537 words the register cannot pass 2^32: the exchange goes unnoticed exactly when not all words became
      zero. */
  lemma ShortChangeUndetectedIff(words: seq<Word>, i: nat, v: Word)
    requires i < |words| <= 65537 && v != words[i]
    ensures Accepts(words[i := v], ChecksumOf(words)) <==>
      (words[i] == 0 && v == 65535) || (words[i] == 65535 && v == 0 && Sum(words[i := v]) > 0)
  {
    ChangeUndetectedIff(words, i, v);
    SumChanged(words, i, v);
    NoWrap(words, 0);
    NoWrap(words[i := v], 0);
  }

  /** With 65538 words an exchange can be noticed although not all words became zero. */
  lemma NoticedExchange(words: seq<Word>, n: nat)
    requires n == 65537 && words == seq(n, _ => 65535) + [0]
    ensures Sum(words[n := 65535]) > 0 && !Accepts(words[n := 65535], ChecksumOf(words))
  {
    assert words[..n] == seq(n, _ => 65535);
    SumOfOnes(n);
    SumChanged(words, n, 65535);
    ChangeUndetectedIff(words, n, 65535);
  }

  /** Exchanging w for v keeps a multiple of 65535 only if they differ by 0 or 65535. */
  lemma ShiftedMultiple(t: nat, w: Word, v: Word)
    requires t % 65535 == 0 && t - w + v >= 0
    ensures (t - w + v) % 65535 == 0 <==> v == w || (v == 0 && w == 65535) || (v == 65535 && w == 0)
  {}
}
