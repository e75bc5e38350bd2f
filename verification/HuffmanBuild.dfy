/** Building the Huffman tree of a frequency table with the heap. */
module HuffmanBuild {
  import opened BitStreams
  import opened HuffmanTrees
  import opened MinHeaps
  import opened HuffmanForests
  import opened WeightTrees

  type Table = f: seq<nat> | |f| == 256 witness seq(256, _ => 0)

  /** The number of symbols from i on that occur at all. */
  ghost function Distinct(f: seq<nat>, i: nat): nat
    decreases |f| - i
  {
    if i >= |f| then 0 else (if f[i] > 0 then 1 else 0) + Distinct(f, i + 1)
  }

  /** The number of occurrences of symbols from i on. */
  ghost function SumFrom(f: seq<nat>, i: nat): nat
    decreases |f| - i
  {
    if i >= |f| then 0 else f[i] + SumFrom(f, i + 1)
  }

  /** One leaf, with the table's frequency, for every symbol below i that occurs, and no other leaf. */
  ghost predicate LeavesUpTo(m: multiset<Tree>, f: seq<nat>, i: nat)
    requires i <= |f|
  {
    forall c: nat, z: nat :: ForestLeafCount(m, c, z) == if c < i && z > 0 && f[c] == z then 1 else 0
  }

  /** The forest after the first i symbols have been entered. */
  ghost predicate Started(m: multiset<Tree>, f: seq<nat>, i: nat)
    requires i <= |f|
  {
    && GoodTrees(m) && Spread(m) && (forall t :: t in m ==> IsLeaf(t))
    && LeavesUpTo(m, f, i)
    && (forall z: nat :: RootCount(m, z) + TableCount(f, i, z) == TableCount(f, 0, z))
    && ForestFreq(m) + SumFrom(f, i) == SumFrom(f, 0)
    && ForestLeaves(m) + Distinct(f, i) == Distinct(f, 0)
    && ForestCost(m) == 0
  }

  /** What the greedy loop keeps true of the forest. */
  ghost predicate Grown(m: multiset<Tree>, f: seq<nat>) {
    && GoodTrees(m) && Spread(m) && Dominates(m, f)
    && LeavesUpTo(m, f, |f|)
    && ForestFreq(m) == SumFrom(f, 0)
    && ForestLeaves(m) == Distinct(f, 0)
  }

  lemma StartStep(m: multiset<Tree>, f: Table, c: Byte)
    requires Started(m, f, c)
    ensures Started(if f[c] > 0 then m + multiset{Leaf(c, f[c])} else m, f, c + 1)
  {
    if f[c] > 0 {
      AddLeaf(m, c, f[c]);
      AddTree(m, Leaf(c, f[c]));
      AddTreeCounts(m, Leaf(c, f[c]));
    }
  }

  lemma StartDone(m: multiset<Tree>, f: Table)
    requires Started(m, f, 256)
    ensures Grown(m, f)
  {
    forall u | MatchesTable(u, f)
      ensures exists v :: Undercuts(v, m, u)
    {
      assert Undercuts(u, m, u);
    }
  }

  lemma GrowStep(f: Table, rest: multiset<Tree>, a: Tree, b: Tree)
    requires Next(rest, a, b) && Grown(rest + multiset{b} + multiset{a}, f)
    ensures Grown(rest + multiset{Join(a, b)}, f)
  {
    JoinGood(rest, a, b);
    JoinSpread(rest, a, b);
    JoinDominates(f, rest, a, b);
    JoinTotals(rest, a, b);
    JoinCounts(rest, a, b);
  }

  /** The heap array after the first i symbols have been entered. */
  ghost function Entered(f: Table, i: nat): (s: seq<Tree>)
    requires i <= 256
    ensures AllNodes(s)
  {
    if i == 0 then []
    else if f[i - 1] > 0 then Inserted(Entered(f, i - 1), Leaf(i - 1, f[i - 1]))
    else Entered(f, i - 1)
  }

  lemma {:induction false} EnteredSize(f: Table, i: nat)
    requires i <= 256
    ensures |Entered(f, i)| + Distinct(f, i) == Distinct(f, 0)
  {
    if i > 0 {
      EnteredSize(f, i - 1);
    }
  }

  lemma {:induction false} EnteredStarts(f: Table, i: nat)
    requires i <= 256
    ensures IsHeap(Entered(f, i)) && Started(multiset(Entered(f, i)), f, i)
  {
    if i > 0 {
      EnteredStarts(f, i - 1);
      StartStep(multiset(Entered(f, i - 1)), f, i - 1);
      if f[i - 1] > 0 {
        InsertedIsHeap(Entered(f, i - 1), Leaf(i - 1, f[i - 1]));
      }
    } else {
      NothingStarted(f);
    }
  }

  lemma NothingStarted(f: Table)
    ensures Started(multiset{}, f, 0)
  {}

  /** The heap array after one round: the two trees that come out first go back in as one. */
  ghost function Merged(s: seq<Tree>): (u: seq<Tree>)
    requires AllNodes(s) && |s| >= 2
    ensures |u| == |s| - 1 && AllNodes(u)
  {
    var s1 := Extracted(s);
    Inserted(Extracted(s1), Join(s[0], s1[0]))
  }

  /** The tree that the greedy loop ends with. */
  ghost function Greedy(s: seq<Tree>): Tree
    requires AllNodes(s) && |s| >= 1
    decreases |s|
  {
    if |s| == 1 then s[0] else Greedy(Merged(s))
  }

  /** A round takes out two least trees. */
  lemma MergedTakesNext(s: seq<Tree>) returns (rest: multiset<Tree>)
    requires AllNodes(s) && IsHeap(s) && |s| >= 2
    ensures IsHeap(Merged(s)) && Next(rest, s[0], Extracted(s)[0])
    ensures multiset(s) == rest + multiset{Extracted(s)[0]} + multiset{s[0]}
    ensures multiset(Merged(s)) == rest + multiset{Join(s[0], Extracted(s)[0])}
  {
    var s1 := Extracted(s);
    ExtractedIsHeap(s);
    ExtractedIsHeap(s1);
    rest := multiset(Extracted(s1));
    InsertedIsHeap(Extracted(s1), Join(s[0], s1[0]));
    RootBelowAll(s, s1[0]);
    forall t | t in rest
      ensures t.Node? && s1[0].freq <= t.freq
    {
      RootBelowAll(s1, t);
    }
  }

  lemma RootBelowAll(s: seq<Tree>, t: Tree)
    requires AllNodes(s) && IsHeap(s) && t in multiset(s)
    ensures t.Node? && s[0].freq <= t.freq
  {
    var i :| 0 <= i < |s| && s[i] == t;
    RootIsLeast(s, i);
  }

  /** What holds of the forest when the greedy loop starts holds of the tree it ends with. */
  lemma {:induction false} GreedyKeepsGrown(f: Table, s: seq<Tree>)
    requires AllNodes(s) && IsHeap(s) && |s| >= 1 && Grown(multiset(s), f)
    ensures IsHuffman(Greedy(s), f)
    decreases |s|
  {
    if |s| == 1 {
      assert s == [s[0]];
      assert multiset(s) == multiset{} + multiset{s[0]};
      GrowDone(s[0], f);
    } else {
      var rest := MergedTakesNext(s);
      GrowStep(f, rest, s[0], Extracted(s)[0]);
      GreedyKeepsGrown(f, Merged(s));
    }
  }

  /** A Huffman tree of the table: exactly its symbols as leaves, as light as any tree over its weights. */
  ghost predicate IsHuffman(t: Tree, f: Table) {
    && Weighed(t) && Balanced(t)
    && t.freq == SumFrom(f, 0)
    && Leaves(t) == Distinct(f, 0)
    && (forall c: nat, z: nat :: LeafCount(t, c, z) == if c < 256 && z > 0 && f[c] == z then 1 else 0)
    && (forall u :: MatchesTable(u, f) ==> CostOf(t) <= Cost(u))
  }

  lemma GrowDone(t: Tree, f: Table)
    requires Grown(multiset{} + multiset{t}, f)
    ensures IsHuffman(t, f)
  {
    var m := multiset{} + multiset{t};
    assert t in m;
    AddTree(multiset{}, t);
    AddTreeCounts(multiset{}, t);
    forall c: nat, z: nat
      ensures LeafCount(t, c, z) == if c < 256 && z > 0 && f[c] == z then 1 else 0
    {
      assert ForestLeafCount(m, c, z) == LeafCount(t, c, z);
    }
    forall u | MatchesTable(u, f)
      ensures CostOf(t) <= Cost(u)
    {
      var v :| Undercuts(v, m, u);
    }
  }

  /** The tree of a text with c as its only symbol: a dummy leaf stands beside it. */
  ghost predicate IsSingle(root: Tree, f: Table, c: Byte) {
    f[c] > 0 && root == Node(DOLLAR, f[c], Leaf(c, f[c]), Leaf(0, 0))
  }

  method BuildHuffmanTree(freqs: Table) returns (root: Tree, distinctCount: nat)
    ensures distinctCount == Distinct(freqs, 0)
    ensures distinctCount == 0 ==> root == Nil
    ensures distinctCount == 1 ==> exists c: Byte :: IsSingle(root, freqs, c)
    ensures distinctCount >= 2 ==> IsHuffman(root, freqs)
  {
    var distinct := 0;
    for i := 0 to 256
      invariant distinct + Distinct(freqs, i) == Distinct(freqs, 0)
    {
      if freqs[i] > 0 {
        distinct := distinct + 1;
      }
    }
    distinctCount := distinct;
    if distinct == 0 {
      return Nil, distinctCount;
    }
    if distinct == 1 {
      for i := 0 to 256
        invariant Distinct(freqs, i) == 1
      {
        if freqs[i] > 0 {
          root := Node(DOLLAR, freqs[i], Leaf(i, freqs[i]), Leaf(0, 0));
          assert IsSingle(root, freqs, i);
          return;
        }
      }
    }
    var minHeap := EnterSymbols(freqs, distinct);
    EnteredSize(freqs, 256);
    EnteredStarts(freqs, 256);
    StartDone(multiset(minHeap.Items()), freqs);
    GreedyKeepsGrown(freqs, minHeap.Items());
    root := MergeAll(minHeap);
  }

  /** Enters a leaf for every symbol that occurs. */
  method EnterSymbols(freqs: Table, distinct: nat) returns (minHeap: MinHeap)
    requires distinct == Distinct(freqs, 0)
    ensures minHeap.Valid() && minHeap.entries.Length == distinct
    ensures fresh(minHeap) && fresh(minHeap.entries)
    ensures minHeap.Items() == Entered(freqs, 256)
  {
    minHeap := new MinHeap(distinct);
    for i := 0 to 256
      invariant minHeap.Valid() && minHeap.entries.Length == distinct && fresh(minHeap) && fresh(minHeap.entries)
      invariant minHeap.Items() == Entered(freqs, i)
    {
      EnteredSize(freqs, i);
      if freqs[i] > 0 {
        minHeap.InsertMinHeap(Leaf(i, freqs[i]));
      }
    }
  }

  /** The greedy loop: merges the two lightest trees until one is left. */
  method MergeAll(minHeap: MinHeap) returns (root: Tree)
    requires minHeap.Valid() && 1 <= minHeap.size
    modifies minHeap, minHeap.entries
    ensures root == Greedy(old(minHeap.Items()))
  {
    while minHeap.size > 1
      invariant minHeap.Valid() && 1 <= minHeap.size
      invariant Greedy(minHeap.Items()) == Greedy(old(minHeap.Items()))
    {
      var left := minHeap.ExtractMin();
      var right := minHeap.ExtractMin();
      var top := Node(DOLLAR, left.freq + right.freq, left, right);
      minHeap.InsertMinHeap(top);
    }
    root := minHeap.ExtractMin();
  }
}
