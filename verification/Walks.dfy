/** Walks in a weighted graph given by a cost matrix, where one value stands for a missing link. */
module Walks {

  type Matrix = seq<seq<int>>

  /** An n by n matrix of non-negative costs. */
  ghost predicate IsMatrix(c: Matrix, n: nat) {
    |c| == n && forall i :: 0 <= i < n ==> |c[i]| == n && forall j :: 0 <= j < n ==> c[i][j] >= 0
  }

  /** A non-empty node sequence that follows existing links. */
  ghost predicate IsWalk(c: Matrix, n: nat, inf: int, w: seq<nat>)
    requires IsMatrix(c, n)
  {
    && w != []
    && (forall i :: 0 <= i < |w| ==> w[i] < n)
    && forall i :: 0 < i < |w| ==> c[w[i - 1]][w[i]] != inf
  }

  ghost predicate Connects(c: Matrix, n: nat, inf: int, w: seq<nat>, s: nat, t: nat)
    requires IsMatrix(c, n)
  {
    IsWalk(c, n, inf, w) && w[0] == s && w[|w| - 1] == t
  }

  ghost function Length(c: Matrix, n: nat, w: seq<nat>): (len: nat)
    requires IsMatrix(c, n) && forall i :: 0 <= i < |w| ==> w[i] < n
  {
    if |w| <= 1 then 0 else c[w[0]][w[1]] + Length(c, n, w[1..])
  }

  lemma {:induction false} LengthSnoc(c: Matrix, n: nat, w: seq<nat>, v: nat)
    requires IsMatrix(c, n) && w != [] && (forall i :: 0 <= i < |w| ==> w[i] < n) && v < n
    ensures Length(c, n, w + [v]) == Length(c, n, w) + c[w[|w| - 1]][v]
  {
    if |w| == 1 {
      assert (w + [v])[1..] == [v];
    } else {
      LengthSnoc(c, n, w[1..], v);
      assert (w + [v])[1..] == w[1..] + [v];
    }
  }

  lemma Prepend(c: Matrix, n: nat, inf: int, i: nat, w: seq<nat>, s: nat, t: nat)
    requires IsMatrix(c, n) && Connects(c, n, inf, w, s, t) && i < n && c[i][s] != inf
    ensures Connects(c, n, inf, [i] + w, i, t) && Length(c, n, [i] + w) == c[i][s] + Length(c, n, w)
  {
    assert ([i] + w)[1..] == w;
    forall x | 0 < x < |[i] + w|
      ensures c[([i] + w)[x - 1]][([i] + w)[x]] != inf
    {
      if x > 1 {
        assert c[w[x - 2]][w[x - 1]] != inf;
      }
    }
  }

  /** The distance from s to t, or inf if every walk is at least that long. */
  ghost predicate IsDistance(c: Matrix, n: nat, inf: int, s: nat, t: nat, d: int)
    requires IsMatrix(c, n)
  {
    && d <= inf
    && (forall w :: Connects(c, n, inf, w, s, t) ==> d <= Length(c, n, w))
    && (d < inf ==> exists w :: Connects(c, n, inf, w, s, t) && Length(c, n, w) == d)
  }

  /** There is at most one such number. */
  lemma DistanceIsUnique(c: Matrix, n: nat, inf: int, s: nat, t: nat, d: int, e: int)
    requires IsMatrix(c, n) && IsDistance(c, n, inf, s, t, d) && IsDistance(c, n, inf, s, t, e)
    ensures d == e
  {}

  // ----- Cutting out cycles -----

  lemma {:induction false} LengthSplit(c: Matrix, n: nat, w: seq<nat>, i: nat)
    requires IsMatrix(c, n) && (forall k :: 0 <= k < |w| ==> w[k] < n) && i < |w|
    ensures Length(c, n, w) == Length(c, n, w[..i + 1]) + Length(c, n, w[i..])
  {
    if i > 0 {
      LengthSplit(c, n, w[1..], i - 1);
      assert w[1..][..i] == w[..i + 1][1..] && w[1..][i - 1..] == w[i..];
    }
  }

  ghost predicate NoRepeats(w: seq<nat>) {
    forall i, j :: 0 <= i < j < |w| ==> w[i] != w[j]
  }

  /** More than n different values do not fit below n. */
  lemma {:induction false} Pigeonhole(w: seq<nat>, n: nat)
    requires NoRepeats(w) && forall i :: 0 <= i < |w| ==> w[i] < n
    ensures |w| <= n
    decreases n
  {
    assert |w| > 0 ==> w[0] < n;
    if n > 0 {
      if exists k :: 0 <= k < |w| && w[k] == n - 1 {
        var k :| 0 <= k < |w| && w[k] == n - 1;
        Pigeonhole(w[..k] + w[k + 1..], n - 1);
      } else {
        Pigeonhole(w, n - 1);
      }
    }
  }

  /** Some walk of at most n nodes is no longer. */
  lemma {:induction false} Shorten(c: Matrix, n: nat, inf: int, w: seq<nat>, s: nat, t: nat) returns (v: seq<nat>)
    requires IsMatrix(c, n) && Connects(c, n, inf, w, s, t)
    ensures Connects(c, n, inf, v, s, t)
    ensures |v| <= n
    ensures Length(c, n, v) <= Length(c, n, w)
    decreases |w|
  {
    if NoRepeats(w) {
      Pigeonhole(w, n);
      v := w;
    } else {
      var i, j :| 0 <= i < j < |w| && w[i] == w[j];
      CutIsWalk(c, n, inf, w, i, j);
      CutIsShorter(c, n, w, i, j);
      v := Shorten(c, n, inf, Cut(w, i, j), s, t);
    }
  }

  /** The walk without the part between two visits of the same node. */
  ghost function Cut(w: seq<nat>, i: nat, j: nat): (cut: seq<nat>)
    requires i < j < |w|
  {
    w[..i + 1] + w[j + 1..]
  }

  lemma CutIsWalk(c: Matrix, n: nat, inf: int, w: seq<nat>, i: nat, j: nat)
    requires IsMatrix(c, n) && IsWalk(c, n, inf, w) && i < j < |w| && w[i] == w[j]
    ensures Connects(c, n, inf, Cut(w, i, j), w[0], w[|w| - 1])
  {
    var cut := Cut(w, i, j);
    forall x | 0 <= x < |cut|
      ensures cut[x] == (if x <= i then w[x] else w[x + (j - i)]) && cut[x] < n
    {}
    forall x | 0 < x < |cut|
      ensures c[cut[x - 1]][cut[x]] != inf
    {
      var y := if x <= i then x else x + (j - i);
      assert c[w[y - 1]][w[y]] != inf;
    }
  }

  lemma CutIsShorter(c: Matrix, n: nat, w: seq<nat>, i: nat, j: nat)
    requires IsMatrix(c, n) && (forall k :: 0 <= k < |w| ==> w[k] < n) && i < j < |w| && w[i] == w[j]
    ensures (forall k :: 0 <= k < |Cut(w, i, j)| ==> Cut(w, i, j)[k] < n)
    ensures Length(c, n, Cut(w, i, j)) <= Length(c, n, w)
  {
    var cut := Cut(w, i, j);
    LengthSplit(c, n, w, i);
    LengthSplit(c, n, w[i..], j - i);
    LengthSplit(c, n, cut, i);
    assert w[i..][j - i..] == w[j..];
    assert cut[..i + 1] == w[..i + 1];
    assert cut[i..] == w[j..];
  }
}
