/** How good the generated codes are: prefix-free, optimal, and short. */
module HuffmanQuality {
  import opened BitStreams
  import opened HuffmanTrees
  import opened HuffmanForests
  import opened HuffmanBuild
  import opened HuffmanCodes
  import opened HuffmanFile
  import opened PrefixCodes
  import opened WeightTrees

  ghost function CodeTable(root: Tree): Codes {
    CodesOf(root, [], NoCodes())
  }

  /** Words of different symbols that occur are incomparable. */
  ghost predicate PrefixFreeFor(f: Table, code: Codes) {
    forall i, j :: 0 <= i < 256 && 0 <= j < 256 && i != j && f[i] > 0 && f[j] > 0 ==> Incomparable(code[i], code[j])
  }

  // ----- From the leaf counts to the codes -----

  lemma {:induction false} WeighedIsProper(t: Tree)
    requires Weighed(t)
    ensures Proper(t)
  {
    if !IsLeaf(t) {
      WeighedIsProper(t.left);
      WeighedIsProper(t.right);
    }
  }

  lemma {:induction false} OnlyFrequency(t: Tree, c: nat, f: nat)
    requires forall z: nat :: z != f ==> LeafCount(t, c, z) == 0
    ensures SymbolLeaves(t, c) == LeafCount(t, c, f) && SymbolWeighs(t, c, f)
  {
    if t.Node? {
      if IsLeaf(t) {
        assert LeafCount(t, c, t.freq) == if t.data == c then 1 else 0;
      } else {
        assert forall z: nat :: LeafCount(t, c, z) == LeafCount(t.left, c, z) + LeafCount(t.right, c, z);
        OnlyFrequency(t.left, c, f);
        OnlyFrequency(t.right, c, f);
      }
    }
  }

  /** Each symbol that occurs has one leaf and a code word that leads to it. */
  lemma HuffmanWord(root: Tree, f: Table, c: Byte)
    requires IsHuffman(root, f) && Distinct(f, 0) >= 2
    ensures Proper(root) && !IsLeaf(root)
    ensures f[c] > 0 ==> Leads(root, CodeTable(root)[c], c) && |CodeTable(root)[c]| <= TreeHeight(root)
    ensures SymbolBits(root, c, 0) == if f[c] > 0 then f[c] * |CodeTable(root)[c]| else 0
  {
    WeighedIsProper(root);
    OnlyFrequency(root, c, f[c]);
    CodesLead(root, [], NoCodes(), c);
    SymbolBitsAreCodeBits(root, [], NoCodes(), c, f[c]);
    assert CodeTable(root)[c][0..] == CodeTable(root)[c];
  }

  lemma {:induction false} LeadsApart(t: Tree, u: seq<bool>, v: seq<bool>, c: Byte, d: Byte)
    requires Leads(t, u, c) && Leads(t, v, d) && u <= v
    ensures c == d
  {
    if u != [] {
      LeadsApart(Child(t, u[0]), u[1..], v[1..], c, d);
    }
  }

  /** No generated code word is a prefix of another. */
  lemma GeneratedCodeIsPrefixFree(root: Tree, f: Table)
    requires IsHuffman(root, f) && Distinct(f, 0) >= 2
    ensures PrefixFreeFor(f, CodeTable(root))
  {
    var code := CodeTable(root);
    forall i, j | 0 <= i < 256 && 0 <= j < 256 && i != j && f[i] > 0 && f[j] > 0
      ensures Incomparable(code[i], code[j])
    {
      HuffmanWord(root, f, i);
      HuffmanWord(root, f, j);
      if code[i] <= code[j] {
        LeadsApart(root, code[i], code[j], i, j);
      }
      if code[j] <= code[i] {
        LeadsApart(root, code[j], code[i], j, i);
      }
    }
  }

  lemma {:induction false} PayloadIsBitsBelow(root: Tree, f: Table, n: nat)
    requires IsHuffman(root, f) && Distinct(f, 0) >= 2 && n <= 256
    ensures PayloadBits(f, CodeTable(root), n) == BitsBelow(root, 0, n)
  {
    if n > 0 {
      HuffmanWord(root, f, n - 1);
      PayloadIsBitsBelow(root, f, n - 1);
    }
  }

  lemma PayloadIsCost(root: Tree, f: Table)
    requires IsHuffman(root, f) && Distinct(f, 0) >= 2
    ensures PayloadBits(f, CodeTable(root), 256) == CostOf(root)
  {
    PayloadIsBitsBelow(root, f, 256);
    BitsAreCost(root, 0);
  }

  // ----- Optimality -----

  /** The code words of the symbols from i on that occur. */
  ghost function Entries(f: Table, code: Codes, i: nat): seq<Entry>
    decreases 256 - i
  {
    if i >= 256 then [] else
      (if f[i] > 0 then [Entry(f[i], code[i])] else []) + Entries(f, code, i + 1)
  }

  lemma {:induction false} EntryComesFrom(f: Table, code: Codes, i: nat, e: Entry)
    requires e in Entries(f, code, i)
    ensures exists j :: i <= j < 256 && f[j] > 0 && e == Entry(f[j], code[j])
    decreases 256 - i
  {
    if !(f[i] > 0 && e == Entry(f[i], code[i])) {
      EntryComesFrom(f, code, i + 1, e);
    }
  }

  lemma {:induction false} EntriesPrefixFree(f: Table, code: Codes, i: nat)
    requires PrefixFreeFor(f, code)
    ensures PrefixFree(Entries(f, code, i))
    decreases 256 - i
  {
    if i < 256 {
      EntriesPrefixFree(f, code, i + 1);
      var rest := Entries(f, code, i + 1);
      if f[i] > 0 {
        forall e | e in rest
          ensures Incomparable(code[i], e.word)
        {
          EntryComesFrom(f, code, i + 1, e);
        }
        assert Entries(f, code, i)[1..] == rest;
      } else {
        assert Entries(f, code, i) == rest;
      }
    }
  }

  lemma {:induction false} EntriesOccur(f: Table, code: Codes, i: nat, z: nat)
    ensures Occurrences(Entries(f, code, i), z) == TableCount(f, i, z)
    decreases 256 - i
  {
    if i < 256 {
      EntriesOccur(f, code, i + 1, z);
      var rest := Entries(f, code, i + 1);
      assert Entries(f, code, i) == if f[i] > 0 then [Entry(f[i], code[i])] + rest else rest;
    }
  }

  lemma {:induction false} EntriesBits(f: Table, code: Codes, i: nat)
    requires i <= 256
    ensures PayloadBits(f, code, i) + Bits(Entries(f, code, i)) == PayloadBits(f, code, 256)
    decreases 256 - i
  {
    if i < 256 {
      EntriesBits(f, code, i + 1);
      var rest := Entries(f, code, i + 1);
      assert Entries(f, code, i) == if f[i] > 0 then [Entry(f[i], code[i])] + rest else rest;
    }
  }

  /** Greedy optimality: no prefix-free code for the table spends fewer payload bits. */
  lemma HuffmanIsOptimal(root: Tree, f: Table, other: Codes)
    requires IsHuffman(root, f) && Distinct(f, 0) >= 2
    requires PrefixFreeFor(f, other)
    ensures PayloadBits(f, CodeTable(root), 256) <= PayloadBits(f, other, 256)
  {
    var entries := Entries(f, other, 0);
    EntriesPrefixFree(f, other, 0);
    EntriesBits(f, other, 0);
    EntriesNonempty(f, other, 0);
    var u := CodeToShape(entries);
    forall z: nat
      ensures Count(u, z) == TableCount(f, 0, z)
    {
      EntriesOccur(f, other, 0, z);
    }
    assert MatchesTable(u, f);
    PayloadIsCost(root, f);
  }

  lemma {:induction false} EntriesNonempty(f: Table, code: Codes, i: nat)
    ensures |Entries(f, code, i)| == Distinct(f, i)
    decreases 256 - i
  {
    if i < 256 {
      EntriesNonempty(f, code, i + 1);
    }
  }

  // ----- The fixed-length code -----

  /** Each symbol's number among those that occur, in binary. */
  ghost function FixedLength(f: Table, width: nat): Codes {
    seq(256, c requires 0 <= c < 256 => ToBits(Rank(f, c), width))
  }

  ghost function Rank(f: Table, c: nat): nat
    requires c < 256
  {
    RankBound(f, 0, c);
    Distinct(f, 0) - Distinct(f, c)
  }

  lemma {:induction false} RankBound(f: Table, i: nat, j: nat)
    requires i <= j <= 256
    ensures Distinct(f, i) >= Distinct(f, j)
    ensures i < j && f[i] > 0 ==> Distinct(f, i) > Distinct(f, j)
    decreases j - i
  {
    if i < j {
      RankBound(f, i + 1, j);
    }
  }

  lemma SameLength(u: seq<bool>, v: seq<bool>)
    requires |u| == |v| && u != v
    ensures Incomparable(u, v)
  {
    assert u[..|u|] == u && v[..|v|] == v;
  }

  lemma FixedLengthIsPrefixFree(f: Table, width: nat)
    requires Distinct(f, 0) <= Pow2(width)
    ensures PrefixFreeFor(f, FixedLength(f, width))
  {
    var code := FixedLength(f, width);
    forall i, j | 0 <= i < 256 && 0 <= j < 256 && i != j && f[i] > 0 && f[j] > 0
      ensures Incomparable(code[i], code[j])
    {
      RankBound(f, i, 256);
      RankBound(f, j, 256);
      if i < j {
        RankBound(f, i, j);
      } else {
        RankBound(f, j, i);
      }
      FromToBits(Rank(f, i), width);
      FromToBits(Rank(f, j), width);
      SameLength(code[i], code[j]);
    }
  }

  lemma Distribute(w: nat, x: nat, y: nat)
    ensures w * (x + y) == w * x + w * y
    ensures w * x == x * w
  {}

  lemma {:induction false} FixedLengthBits(f: Table, width: nat, n: nat)
    requires n <= 256
    ensures PayloadBits(f, FixedLength(f, width), n) + width * SumFrom(f, n) == width * SumFrom(f, 0)
  {
    if n > 0 {
      FixedLengthBits(f, width, n - 1);
      Distribute(width, f[n - 1], SumFrom(f, n));
    }
  }

  /** The payload is at most the text length times ceil(log2 of the number of symbols), or any width that
      can number the symbols. */
  lemma NoWorseThanFixedLength(root: Tree, f: Table, width: nat)
    requires IsHuffman(root, f) && Distinct(f, 0) >= 2
    requires Distinct(f, 0) <= Pow2(width)
    ensures PayloadBits(f, CodeTable(root), 256) <= width * SumFrom(f, 0)
  {
    FixedLengthIsPrefixFree(f, width);
    HuffmanIsOptimal(root, f, FixedLength(f, width));
    FixedLengthBits(f, width, 256);
    assert SumFrom(f, 256) == 0 && width * 0 == 0;
  }

  /** No code word is longer than the number of other symbols. */
  lemma CodeLengthBound(root: Tree, f: Table, c: Byte)
    requires IsHuffman(root, f) && Distinct(f, 0) >= 2 && f[c] > 0
    ensures 1 <= |CodeTable(root)[c]| <= TreeHeight(root) <= Distinct(f, 0) - 1 <= 255
  {
    HuffmanWord(root, f, c);
    HeightBelowLeaves(root);
    DistinctBound(f, 0);
  }

  /** A long code word needs a long text. */
  lemma CodeLengthFib(root: Tree, f: Table, c: Byte)
    requires IsHuffman(root, f) && Distinct(f, 0) >= 2 && f[c] > 0
    ensures Fib(|CodeTable(root)[c]| + 2) <= SumFrom(f, 0)
  {
    CodeLengthBound(root, f, c);
    HeightFib(root);
    FibMonotone(|CodeTable(root)[c]| + 2, TreeHeight(root) + 2);
  }

  lemma {:induction false} DistinctBound(f: Table, i: nat)
    requires i <= 256
    ensures Distinct(f, i) <= 256 - i
    decreases 256 - i
  {
    if i < 256 {
      DistinctBound(f, i + 1);
    }
  }

  lemma {:induction false} FibMonotone(m: nat, n: nat)
    requires m <= n
    ensures Fib(m) <= Fib(n)
  {
    if m < n {
      FibMonotone(m, n - 1);
    }
  }
}
