/** The combinatorial core of Huffman coding, on weights alone: merging the two smallest weights of a
    full binary tree is never a loss. Multisets of weights are given by their counts. */
module WeightTrees {

  /** A full binary tree whose leaves carry weights. */
  datatype Shape = Tip(w: nat) | Fork(l: Shape, r: Shape)

  ghost function Sum(t: Shape): nat {
    match t
    case Tip(w) => w
    case Fork(l, r) => Sum(l) + Sum(r)
  }

  /** The weighted path length: every leaf pays its weight once for each edge above it. */
  ghost function Cost(t: Shape): nat {
    match t
    case Tip(_) => 0
    case Fork(l, r) => Cost(l) + Cost(r) + Sum(l) + Sum(r)
  }

  ghost function Height(t: Shape): nat {
    match t
    case Tip(_) => 0
    case Fork(l, r) => 1 + if Height(l) < Height(r) then Height(r) else Height(l)
  }

  /** A leaf of weight w hangs at depth k. */
  ghost predicate HasTip(t: Shape, w: nat, k: nat) {
    match t
    case Tip(v) => v == w && k == 0
    case Fork(l, r) => k > 0 && (HasTip(l, w, k - 1) || HasTip(r, w, k - 1))
  }

  /** How many leaves have weight z. */
  ghost function Count(t: Shape, z: nat): nat {
    match t
    case Tip(w) => One(w, z)
    case Fork(l, r) => Count(l, z) + Count(r, z)
  }

  ghost function One(w: nat, z: nat): nat {
    if w == z then 1 else 0
  }

  /** Every weight of the tree hangs somewhere, no deeper than the height. */
  lemma {:induction false} FindTip(t: Shape, w: nat) returns (k: nat)
    requires Count(t, w) > 0
    ensures HasTip(t, w, k) && k <= Height(t)
  {
    match t
    case Tip(_) => k := 0;
    case Fork(l, r) =>
      if Count(l, w) > 0 {
        k := FindTip(l, w);
      } else {
        k := FindTip(r, w);
      }
      k := k + 1;
  }

  /** k times d, by repeated addition. */
  ghost function Scale(k: nat, d: int): int {
    if k == 0 then 0 else d + Scale(k - 1, d)
  }

  lemma {:induction false} ScaleAdd(k: nat, c: int, d: int)
    ensures Scale(k, c) + Scale(k, d) == Scale(k, c + d)
  {
    if k > 0 {
      ScaleAdd(k - 1, c, d);
    }
  }

  lemma {:induction false} ScaleZero(k: nat)
    ensures Scale(k, 0) == 0
  {
    if k > 0 {
      ScaleZero(k - 1);
    }
  }

  lemma {:induction false} ScaleMono(k: nat, h: nat, d: nat)
    requires k <= h
    ensures Scale(k, d) <= Scale(h, d)
  {
    if k < h {
      ScaleMono(k, h - 1, d);
    }
  }

  lemma Balance(h: nat, s: int, d: int)
    requires h > 0
    ensures Scale(h - 1, s - d) + Scale(h, d - s) == d - s
  {
    ScaleAdd(h - 1, s - d, d - s);
    ScaleZero(h - 1);
  }

  /** The tree with a leaf of weight x at depth k relabelled a. */
  ghost function Relabel(t: Shape, x: nat, k: nat, a: nat): Shape
    requires HasTip(t, x, k)
  {
    match t
    case Tip(_) => Tip(a)
    case Fork(l, r) =>
      if HasTip(l, x, k - 1) then Fork(Relabel(l, x, k - 1, a), r) else Fork(l, Relabel(r, x, k - 1, a))
  }

  /** Relabelling a leaf changes the cost in proportion to its depth. */
  lemma {:induction false} RelabelCost(t: Shape, x: nat, k: nat, a: nat)
    requires HasTip(t, x, k)
    ensures var u := Relabel(t, x, k, a);
      && Height(u) == Height(t)
      && Sum(u) + x == Sum(t) + a
      && Cost(u) == Cost(t) + Scale(k, a - x)
  {
    if t.Fork? {
      if HasTip(t.l, x, k - 1) {
        RelabelCost(t.l, x, k - 1, a);
      } else {
        RelabelCost(t.r, x, k - 1, a);
      }
    }
  }

  lemma {:induction false} RelabelCount(t: Shape, x: nat, k: nat, a: nat, z: nat)
    requires HasTip(t, x, k)
    ensures Count(Relabel(t, x, k, a), z) + One(x, z) == Count(t, z) + One(a, z)
  {
    if t.Fork? {
      if HasTip(t.l, x, k - 1) {
        RelabelCount(t.l, x, k - 1, a, z);
      } else {
        RelabelCount(t.r, x, k - 1, a, z);
      }
    }
  }

  /** Two sibling leaves at the greatest depth. */
  ghost function DeepestPair(t: Shape): (nat, nat)
    requires t.Fork?
  {
    if t.l.Tip? && t.r.Tip? then (t.l.w, t.r.w)
    else if Height(t.r) <= Height(t.l) then DeepestPair(t.l)
    else DeepestPair(t.r)
  }

  /** The tree with that pair merged into its parent. */
  ghost function MergeDeepest(t: Shape): Shape
    requires t.Fork?
  {
    if t.l.Tip? && t.r.Tip? then Tip(t.l.w + t.r.w)
    else if Height(t.r) <= Height(t.l) then Fork(MergeDeepest(t.l), t.r)
    else Fork(t.l, MergeDeepest(t.r))
  }

  lemma {:induction false} MergeDeepestCost(t: Shape)
    requires t.Fork?
    ensures var (a, b) := DeepestPair(t); var u := MergeDeepest(t);
      && Sum(u) == Sum(t) && Cost(u) + a + b == Cost(t)
      && Height(u) <= Height(t) && HasTip(u, a + b, Height(t) - 1)
  {
    if t.l.Tip? && t.r.Tip? {
    } else if Height(t.r) <= Height(t.l) {
      MergeDeepestCost(t.l);
    } else {
      MergeDeepestCost(t.r);
    }
  }

  lemma {:induction false} MergeDeepestCount(t: Shape, z: nat)
    requires t.Fork?
    ensures var (a, b) := DeepestPair(t);
      && Count(MergeDeepest(t), z) + One(a, z) + One(b, z) == Count(t, z) + One(a + b, z)
      && Count(t, z) >= One(a, z) + One(b, z)
  {
    if t.l.Tip? && t.r.Tip? {
    } else if Height(t.r) <= Height(t.l) {
      MergeDeepestCount(t.l, z);
    } else {
      MergeDeepestCount(t.r, z);
    }
  }

  /** Sinking a light leaf: relabelling x by a heavier a costs at most a - x per level of the height bound. */
  lemma Exchange(t: Shape, x: nat, a: nat, h: nat) returns (u: Shape)
    requires x == a || Count(t, x) > 0
    requires x <= a && Height(t) <= h
    ensures forall z: nat :: Count(u, z) + One(x, z) == Count(t, z) + One(a, z)
    ensures Height(u) == Height(t)
    ensures Cost(u) <= Cost(t) + Scale(h, a - x)
  {
    if x == a {
      u := t;
      ScaleZero(h);
    } else {
      var k := FindTip(t, x);
      u := Relabel(t, x, k, a);
      RelabelCost(t, x, k, a);
      forall z: nat
        ensures Count(u, z) + One(x, z) == Count(t, z) + One(a, z)
      {
        RelabelCount(t, x, k, a, z);
      }
      ScaleMono(k, h, a - x);
    }
  }

  /** x and y are two smallest weights of the tree. */
  ghost predicate TwoSmallest(t: Shape, x: nat, y: nat) {
    && x <= y
    && Count(t, x) >= 1 + One(y, x)
    && Count(t, y) >= 1
    && forall z :: Count(t, z) > One(x, z) ==> y <= z
  }

  /** The greedy-choice property: if x and y are two smallest weights of a tree, some tree over the
      remaining weights and x + y costs less by at least x + y. */
  lemma GreedyChoice(t: Shape, x: nat, y: nat) returns (u: Shape)
    requires t.Fork? && TwoSmallest(t, x, y)
    ensures forall z: nat :: Count(u, z) + One(x, z) + One(y, z) == Count(t, z) + One(x + y, z)
    ensures Cost(u) + x + y <= Cost(t)
  {
    var (a, b) := DeepestPair(t);
    var t0, h := MergeDeepest(t), Height(t);
    MergeDeepestCost(t);
    forall z: nat
      ensures Count(t0, z) + One(a, z) + One(b, z) == Count(t, z) + One(a + b, z)
      ensures Count(t, z) >= One(a, z) + One(b, z)
    {
      MergeDeepestCount(t, z);
    }
    u := SinkBoth(t, t0, a, b, x, y, h);
  }

  /** The merged leaf takes the weight x + y; a and b take over the leaves of x and y. */
  lemma SinkBoth(t: Shape, t0: Shape, a: nat, b: nat, x: nat, y: nat, h: nat) returns (u: Shape)
    requires TwoSmallest(t, x, y)
    requires h > 0 && HasTip(t0, a + b, h - 1) && Height(t0) <= h
    requires forall z: nat :: Count(t0, z) + One(a, z) + One(b, z) == Count(t, z) + One(a + b, z)
    requires forall z: nat :: Count(t, z) >= One(a, z) + One(b, z)
    ensures forall z: nat :: Count(u, z) + One(x, z) + One(y, z) == Count(t, z) + One(x + y, z)
    ensures Cost(u) + x + y <= Cost(t0) + a + b
  {
    var t1 := RelabelMerged(t, t0, a, b, x + y, h);
    u := ExchangeBoth(t, t1, a, b, x, y, h);
    Balance(h, x + y, a + b);
  }

  lemma RelabelMerged(t: Shape, t0: Shape, a: nat, b: nat, s: nat, h: nat) returns (t1: Shape)
    requires h > 0 && HasTip(t0, a + b, h - 1)
    requires forall z: nat :: Count(t0, z) + One(a, z) + One(b, z) == Count(t, z) + One(a + b, z)
    ensures forall z: nat :: Count(t1, z) + One(a, z) + One(b, z) == Count(t, z) + One(s, z)
    ensures Height(t1) == Height(t0) && Cost(t1) == Cost(t0) + Scale(h - 1, s - (a + b))
  {
    t1 := Relabel(t0, a + b, h - 1, s);
    RelabelCost(t0, a + b, h - 1, s);
    forall z: nat
      ensures Count(t1, z) + One(a, z) + One(b, z) == Count(t, z) + One(s, z)
    {
      RelabelCount(t0, a + b, h - 1, s, z);
    }
  }

  lemma ExchangeBoth(t: Shape, t1: Shape, a: nat, b: nat, x: nat, y: nat, h: nat) returns (u: Shape)
    requires TwoSmallest(t, x, y) && Height(t1) <= h
    requires forall z: nat :: Count(t1, z) + One(a, z) + One(b, z) == Count(t, z) + One(x + y, z)
    requires forall z: nat :: Count(t, z) >= One(a, z) + One(b, z)
    ensures forall z: nat :: Count(u, z) + One(x, z) + One(y, z) == Count(t, z) + One(x + y, z)
    ensures Cost(u) <= Cost(t1) + Scale(h, (a + b) - (x + y))
  {
    assert Count(t, a) > One(x, a) || a == x;
    assert Count(t, b) > One(x, b) || b == x;
    if x == b {
      assert a - y == (a + b) - (x + y);
      u := Exchange(t1, y, a, h);
    } else {
      var t2 := Exchange(t1, x, a, h);
      u := Exchange(t2, y, b, h);
      ScaleAdd(h, a - x, b - y);
      assert (a - x) + (b - y) == (a + b) - (x + y);
    }
  }
}
