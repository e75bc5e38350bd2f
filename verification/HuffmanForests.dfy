/** What the greedy loop keeps true of the forest of trees in the heap. */
module HuffmanForests {
  import opened BitStreams
  import opened HuffmanTrees
  import opened WeightTrees
  import Multisets

  // ----- Totals over a multiset -----

  ghost function Total<T(!new)>(m: multiset<T>, g: T -> nat): nat
    decreases |m|
  {
    if m == multiset{} then 0 else
      var x :| x in m;
      g(x) + Total(m - multiset{x}, g)
  }

  lemma {:induction false} TotalRemove<T(!new)>(m: multiset<T>, x: T, g: T -> nat)
    requires x in m
    ensures Total(m, g) == g(x) + Total(m - multiset{x}, g)
    decreases |m|
  {
    var y :| y in m && Total(m, g) == g(y) + Total(m - multiset{y}, g);
    if y != x {
      var mx, my := m - multiset{x}, m - multiset{y};
      assert mx - multiset{y} == my - multiset{x};
      TotalRemove(my, x, g);
      TotalRemove(mx, y, g);
    }
  }

  lemma TotalAdd<T(!new)>(m: multiset<T>, x: T, g: T -> nat)
    ensures Total(m + multiset{x}, g) == Total(m, g) + g(x)
  {
    Multisets.Add(m, x);
    TotalRemove(m + multiset{x}, x, g);
  }

  lemma {:induction false} TotalPositive<T(!new)>(m: multiset<T>, g: T -> nat) returns (x: T)
    requires Total(m, g) > 0
    ensures x in m && g(x) > 0
    decreases |m|
  {
    x :| x in m && Total(m, g) == g(x) + Total(m - multiset{x}, g);
    if g(x) == 0 {
      x := TotalPositive(m - multiset{x}, g);
    }
  }

  // ----- Trees as the greedy loop builds them -----

  /** Internal nodes weigh what their children weigh; leaves occur in the text. */
  ghost predicate Weighed(t: Tree) {
    && t.Node?
    && t.freq > 0
    && (IsLeaf(t) ||
        (t.data == DOLLAR && Weighed(t.left) && Weighed(t.right) && t.freq == t.left.freq + t.right.freq))
  }

  /** Weighted path length: every internal node pays its frequency. */
  ghost function CostOf(t: Tree): nat {
    if t.Nil? || IsLeaf(t) then 0 else CostOf(t.left) + CostOf(t.right) + t.freq
  }

  /** How many leaves carry symbol c with frequency f. */
  ghost function LeafCount(t: Tree, c: nat, f: nat): nat {
    if t.Nil? then 0
    else if IsLeaf(t) then (if t.data == c && t.freq == f then 1 else 0)
    else LeafCount(t.left, c, f) + LeafCount(t.right, c, f)
  }

  ghost function RootWeighs(z: nat): Tree -> nat {
    (t: Tree) => if t.Node? then One(t.freq, z) else 0
  }

  ghost function LeafCounter(c: nat, f: nat): Tree -> nat {
    (t: Tree) => LeafCount(t, c, f)
  }

  ghost function RootFreq(): Tree -> nat {
    (t: Tree) => if t.Node? then t.freq else 0
  }

  /** How many roots weigh z. */
  ghost function RootCount(m: multiset<Tree>, z: nat): nat {
    Total(m, RootWeighs(z))
  }

  ghost function ForestLeafCount(m: multiset<Tree>, c: nat, f: nat): nat {
    Total(m, LeafCounter(c, f))
  }

  ghost function ForestCost(m: multiset<Tree>): nat {
    Total(m, CostOf)
  }

  ghost function ForestLeaves(m: multiset<Tree>): nat {
    Total(m, Leaves)
  }

  ghost function ForestFreq(m: multiset<Tree>): nat {
    Total(m, RootFreq())
  }

  lemma AddTree(m: multiset<Tree>, t: Tree)
    requires t.Node?
    ensures ForestCost(m + multiset{t}) == ForestCost(m) + CostOf(t)
    ensures ForestLeaves(m + multiset{t}) == ForestLeaves(m) + Leaves(t)
    ensures ForestFreq(m + multiset{t}) == ForestFreq(m) + t.freq
  {
    TotalAdd(m, t, CostOf);
    TotalAdd(m, t, Leaves);
    TotalAdd(m, t, RootFreq());
  }

  lemma AddTreeCounts(m: multiset<Tree>, t: Tree)
    requires t.Node?
    ensures forall z :: RootCount(m + multiset{t}, z) == RootCount(m, z) + One(t.freq, z)
    ensures forall c, f :: ForestLeafCount(m + multiset{t}, c, f) == ForestLeafCount(m, c, f) + LeafCount(t, c, f)
  {
    forall z: nat
      ensures RootCount(m + multiset{t}, z) == RootCount(m, z) + One(t.freq, z)
    {
      TotalAdd(m, t, RootWeighs(z));
    }
    forall c: nat, f: nat
      ensures ForestLeafCount(m + multiset{t}, c, f) == ForestLeafCount(m, c, f) + LeafCount(t, c, f)
    {
      TotalAdd(m, t, LeafCounter(c, f));
    }
  }

  // ----- One greedy step -----

  function Join(a: Tree, b: Tree): Tree
    requires a.Node? && b.Node?
  {
    Node(DOLLAR, a.freq + b.freq, a, b)
  }

  /** a and b are two trees of least frequency in a forest that also holds rest. */
  ghost predicate Next(rest: multiset<Tree>, a: Tree, b: Tree) {
    && a.Node? && b.Node? && a.freq <= b.freq
    && forall t :: t in rest ==> t.Node? && b.freq <= t.freq
  }

  /** The forest before and after joining a and b. */
  ghost function Apart(rest: multiset<Tree>, a: Tree, b: Tree): multiset<Tree> {
    rest + multiset{b} + multiset{a}
  }

  ghost function Joined(rest: multiset<Tree>, a: Tree, b: Tree): multiset<Tree>
    requires a.Node? && b.Node?
  {
    rest + multiset{Join(a, b)}
  }

  /** Joining two trees keeps leaves and total frequency, and pays their frequencies once more. */
  lemma JoinTotals(rest: multiset<Tree>, a: Tree, b: Tree)
    requires a.Node? && b.Node?
    ensures ForestCost(Joined(rest, a, b)) == ForestCost(Apart(rest, a, b)) + a.freq + b.freq
    ensures ForestLeaves(Joined(rest, a, b)) == ForestLeaves(Apart(rest, a, b))
    ensures ForestFreq(Joined(rest, a, b)) == ForestFreq(Apart(rest, a, b))
  {
    AddTree(rest, b);
    AddTree(rest + multiset{b}, a);
    AddTree(rest, Join(a, b));
  }

  lemma JoinCounts(rest: multiset<Tree>, a: Tree, b: Tree)
    requires a.Node? && b.Node?
    ensures forall c, f :: ForestLeafCount(Joined(rest, a, b), c, f) == ForestLeafCount(Apart(rest, a, b), c, f)
    ensures forall z :: RootCount(Apart(rest, a, b), z) == RootCount(rest, z) + One(b.freq, z) + One(a.freq, z)
    ensures forall z :: RootCount(Joined(rest, a, b), z) == RootCount(rest, z) + One(a.freq + b.freq, z)
  {
    AddTreeCounts(rest, b);
    AddTreeCounts(rest + multiset{b}, a);
    AddTreeCounts(rest, Join(a, b));
  }

  // ----- Optimality -----

  /** How many symbols from index i on occur z > 0 times. */
  ghost function TableCount(f: seq<nat>, i: nat, z: nat): nat
    decreases |f| - i
  {
    if i >= |f| then 0 else (if f[i] > 0 then One(f[i], z) else 0) + TableCount(f, i + 1, z)
  }

  /** The leaf weights are the positive frequencies of the table. */
  ghost predicate MatchesTable(u: Shape, f: seq<nat>) {
    forall z: nat :: Count(u, z) == TableCount(f, 0, z)
  }

  ghost predicate MatchesRoots(v: Shape, m: multiset<Tree>) {
    forall z: nat :: Count(v, z) == RootCount(m, z)
  }

  ghost predicate Undercuts(v: Shape, m: multiset<Tree>, u: Shape) {
    MatchesRoots(v, m) && Cost(v) + ForestCost(m) <= Cost(u)
  }

  /** Every tree over the table can be matched, at no greater cost, by a tree on top of the forest. */
  ghost predicate Dominates(m: multiset<Tree>, f: seq<nat>) {
    forall u :: MatchesTable(u, f) ==> exists v :: Undercuts(v, m, u)
  }

  lemma JoinDominates(f: seq<nat>, rest: multiset<Tree>, a: Tree, b: Tree)
    requires Next(rest, a, b) && Dominates(rest + multiset{b} + multiset{a}, f)
    ensures Dominates(rest + multiset{Join(a, b)}, f)
  {
    var m, m' := rest + multiset{b} + multiset{a}, rest + multiset{Join(a, b)};
    forall u | MatchesTable(u, f)
      ensures exists v :: Undercuts(v, m', u)
    {
      var v :| Undercuts(v, m, u);
      JoinCounts(rest, a, b);
      JoinTotals(rest, a, b);
      SmallestRoots(rest, a, b, v);
      var v' := GreedyChoice(v, a.freq, b.freq);
      assert MatchesRoots(v', m');
      assert Undercuts(v', m', u);
    }
  }

  lemma SmallestRoots(rest: multiset<Tree>, a: Tree, b: Tree, v: Shape)
    requires Next(rest, a, b)
    requires forall z: nat :: Count(v, z) == RootCount(rest, z) + One(b.freq, z) + One(a.freq, z)
    ensures TwoSmallest(v, a.freq, b.freq) && v.Fork?
  {
    assert Count(v, a.freq) >= 1 + One(b.freq, a.freq);
    assert Count(v, b.freq) >= 1;
    forall z: nat | Count(v, z) > One(a.freq, z)
      ensures b.freq <= z
    {
      if RootCount(rest, z) > 0 {
        var t := TotalPositive(rest, RootWeighs(z));
      }
    }
  }

  // ----- Depth -----

  /** The frequency of the heavier child, if there is one. */
  ghost function HeavierChild(t: Tree): nat {
    if t.Node? && t.right.Node? then t.right.freq else 0
  }

  /** Siblings outweigh each other's heavier child, at every internal node. */
  ghost predicate Balanced(t: Tree) {
    t.Node? && (IsLeaf(t) ||
      (&& t.left.Node? && t.right.Node?
       && t.left.freq <= t.right.freq
       && HeavierChild(t.left) <= t.right.freq
       && HeavierChild(t.right) <= t.left.freq
       && Balanced(t.left) && Balanced(t.right)))
  }

  /** No tree of the forest weighs less than a child of another one. */
  ghost predicate Spread(m: multiset<Tree>) {
    forall t, u :: t in m && u in m - multiset{t} && u.Node? ==> HeavierChild(t) <= u.freq
  }

  ghost predicate GoodTrees(m: multiset<Tree>) {
    forall t :: t in m ==> Weighed(t) && Balanced(t)
  }

  lemma AddLeaf(m: multiset<Tree>, c: Byte, f: nat)
    requires f > 0 && GoodTrees(m) && forall t :: t in m ==> IsLeaf(t)
    ensures var m' := m + multiset{Leaf(c, f)};
      GoodTrees(m') && Spread(m') && forall t :: t in m' ==> IsLeaf(t)
  {}

  lemma JoinGood(rest: multiset<Tree>, a: Tree, b: Tree)
    requires Next(rest, a, b)
    requires GoodTrees(rest + multiset{b} + multiset{a}) && Spread(rest + multiset{b} + multiset{a})
    ensures GoodTrees(rest + multiset{Join(a, b)})
  {
    var m := rest + multiset{b} + multiset{a};
    assert a in m && b in m - multiset{a} && a in m && b in m && a in m - multiset{b};
    assert Balanced(Join(a, b));
    assert forall t :: t in rest ==> t in m;
  }

  lemma JoinSpread(rest: multiset<Tree>, a: Tree, b: Tree)
    requires Next(rest, a, b) && Spread(rest + multiset{b} + multiset{a})
    ensures Spread(rest + multiset{Join(a, b)})
  {
    var m, top := rest + multiset{b} + multiset{a}, Join(a, b);
    var m' := rest + multiset{top};
    forall t, u | t in m' && u in m' - multiset{t} && u.Node?
      ensures HeavierChild(t) <= u.freq
    {
      if t in rest {
        assert a in m - multiset{t};
        if u in rest - multiset{t} {
          assert u in m - multiset{t};
        } else {
          assert u == top || t == top;
        }
      }
    }
  }

  function Fib(n: nat): nat {
    if n < 2 then n else Fib(n - 1) + Fib(n - 2)
  }

  ghost function TreeHeight(t: Tree): nat {
    if t.Nil? || IsLeaf(t) then 0
    else 1 + if TreeHeight(t.left) < TreeHeight(t.right) then TreeHeight(t.right) else TreeHeight(t.left)
  }

  /** Depth is paid for: a balanced tree of height h weighs at least the Fibonacci number of h + 2. */
  lemma {:induction false} HeightFib(t: Tree)
    requires Weighed(t) && Balanced(t)
    ensures Fib(TreeHeight(t) + 2) <= t.freq
  {
    if !IsLeaf(t) {
      HeightFib(t.left);
      HeightFib(t.right);
      if TreeHeight(t.left) < TreeHeight(t.right) {
        TallSide(t.right, t.left);
      } else {
        TallSide(t.left, t.right);
      }
    }
  }

  /** The taller sibling's taller child weighs at most the other sibling. */
  lemma TallSide(tall: Tree, other: Tree)
    requires Weighed(tall) && Balanced(tall) && other.Node? && other.freq > 0
    requires Fib(TreeHeight(tall) + 2) <= tall.freq
    requires HeavierChild(tall) <= other.freq
    ensures Fib(TreeHeight(tall) + 3) <= tall.freq + other.freq
    decreases tall, 0
  {
    var h := TreeHeight(tall);
    assert Fib(h + 3) == Fib(h + 2) + Fib(h + 1);
    if IsLeaf(tall) {
      assert Fib(1) == 1;
    } else if TreeHeight(tall.left) < TreeHeight(tall.right) {
      HeightFib(tall.right);
    } else {
      HeightFib(tall.left);
    }
  }

  lemma {:induction false} HeightBelowLeaves(t: Tree)
    requires Weighed(t)
    ensures TreeHeight(t) + 1 <= Leaves(t)
  {
    if !IsLeaf(t) {
      HeightBelowLeaves(t.left);
      HeightBelowLeaves(t.right);
    }
  }
}
