/** Identities of multisets over an arbitrary element type, each checked element by element. */
module Multisets {

  lemma Cancel<T>(a: multiset<T>, b: multiset<T>, c: multiset<T>)
    requires a + c == b + c
    ensures a == b
  {
    forall z: T
      ensures a[z] == b[z]
    {
      assert (a + c)[z] == (b + c)[z];
    }
  }

  lemma Add<T>(m: multiset<T>, x: T)
    ensures (m + multiset{x}) - multiset{x} == m
    ensures |m + multiset{x}| == |m| + 1
  {}

  lemma Swap<T>(s: seq<T>, i: nat, j: nat)
    requires i < |s| && j < |s|
    ensures multiset(s[i := s[j]][j := s[i]]) == multiset(s)
  {}

  /** Overwriting the first element with the last, and dropping the last, removes the first. */
  lemma MoveLast<T>(s: seq<T>)
    requires |s| > 0
    ensures multiset(s) == multiset(s[0 := s[|s| - 1]][..|s| - 1]) + multiset{s[0]}
  {
    var last, tail := s[|s| - 1], s[1..];
    var front := s[0 := last][..|s| - 1];
    assert front + [last] == [last] + tail;
    FromConcat(front, [last]);
    FromConcat([last], tail);
    assert [s[0]] + tail == s;
    FromConcat([s[0]], tail);
    Cancel(multiset(front), multiset(tail), multiset{last});
  }

  lemma FromConcat<T>(a: seq<T>, b: seq<T>)
    ensures multiset(a + b) == multiset(a) + multiset(b)
  {}
}
