/** The code table read off a Huffman tree. */
module HuffmanCodes {
  import opened BitStreams
  import opened HuffmanTrees
  import opened HuffmanForests

  type Codes = s: seq<seq<bool>> | |s| == 256 witness seq(256, _ => [])

  /** The table after visiting the subtree t reached by prefix: a later leaf overwrites an earlier one. */
  ghost function CodesOf(t: Tree, prefix: seq<bool>, table: Codes): Codes {
    if t.Nil? then table
    else if IsLeaf(t) then table[t.data := if prefix == [] then [false] else prefix]
    else CodesOf(t.right, prefix + [true], CodesOf(t.left, prefix + [false], table))
  }

  /** The code buffer is shared by all recursive calls; depth says how much of it is in use. */
  method GenerateCodesRecursive(root: Tree, codeBuffer: array<bool>, depth: nat, codeTable: array<seq<bool>>)
    requires codeTable.Length == 256 && depth + TreeHeight(root) < codeBuffer.Length
    modifies codeBuffer, codeTable
    ensures codeTable[..] == CodesOf(root, old(codeBuffer[..depth]), old(codeTable[..]))
    ensures codeBuffer[..depth] == old(codeBuffer[..depth])
    decreases root
  {
    if root.Nil? {
      return;
    }
    ghost var prefix := codeBuffer[..depth];
    if IsLeaf(root) {
      if depth == 0 {
        codeBuffer[0] := false;
        assert codeBuffer[..1] == [false];
        codeTable[root.data] := codeBuffer[..1];
      } else {
        codeTable[root.data] := codeBuffer[..depth];
      }
      return;
    }
    if root.left.Node? {
      codeBuffer[depth] := false;
      assert codeBuffer[..depth + 1] == prefix + [false];
      GenerateCodesRecursive(root.left, codeBuffer, depth + 1, codeTable);
      assert codeBuffer[..depth] == codeBuffer[..depth + 1][..depth];
    }
    if root.right.Node? {
      codeBuffer[depth] := true;
      assert codeBuffer[..depth + 1] == prefix + [true];
      GenerateCodesRecursive(root.right, codeBuffer, depth + 1, codeTable);
      assert codeBuffer[..depth] == codeBuffer[..depth + 1][..depth];
    }
  }

  function NoCodes(): Codes {
    seq(256, _ => [])
  }

  /** The code buffer of 256 characters is long enough for every tree of height up to 255. */
  method GenerateCodes(root: Tree, codeTable: array<seq<bool>>)
    requires codeTable.Length == 256 && TreeHeight(root) <= 255
    modifies codeTable
    ensures codeTable[..] == CodesOf(root, [], NoCodes())
  {
    for i := 0 to 256
      invariant forall j :: 0 <= j < i ==> codeTable[j] == []
    {
      codeTable[i] := [];
    }
    assert codeTable[..] == NoCodes();
    if root.Nil? {
      return;
    }
    var buffer := new bool[256](_ => false);
    assert buffer[..0] == [];
    GenerateCodesRecursive(root, buffer, 0, codeTable);
  }

  /** The number of leaves with symbol c. */
  ghost function SymbolLeaves(t: Tree, c: nat): nat {
    if t.Nil? then 0
    else if IsLeaf(t) then (if t.data == c then 1 else 0)
    else SymbolLeaves(t.left, c) + SymbolLeaves(t.right, c)
  }

  /** The word starts with prefix and continues through t to a leaf with symbol c. */
  ghost predicate Continues(t: Tree, prefix: seq<bool>, word: seq<bool>, c: Byte) {
    prefix <= word && Leads(t, word[|prefix|..], c)
  }

  lemma ContinuesChild(t: Tree, prefix: seq<bool>, bit: bool, word: seq<bool>, c: Byte)
    requires t.Node? && !IsLeaf(t) && Continues(Child(t, bit), prefix + [bit], word, c)
    ensures Continues(t, prefix, word, c)
  {
    assert word[|prefix|..] == [bit] + word[|prefix| + 1..];
  }

  /** A symbol of the tree gets a word that leads to one of its leaves; other entries stay. */
  lemma {:induction false} CodesLead(t: Tree, prefix: seq<bool>, table: Codes, c: Byte)
    requires Proper(t) && (prefix != [] || !IsLeaf(t))
    ensures SymbolLeaves(t, c) == 0 ==> CodesOf(t, prefix, table)[c] == table[c]
    ensures SymbolLeaves(t, c) > 0 ==> Continues(t, prefix, CodesOf(t, prefix, table)[c], c)
    ensures SymbolLeaves(t, c) > 0 ==> |CodesOf(t, prefix, table)[c]| <= |prefix| + TreeHeight(t)
  {
    if !IsLeaf(t) {
      var mid := CodesOf(t.left, prefix + [false], table);
      CodesLead(t.left, prefix + [false], table, c);
      CodesLead(t.right, prefix + [true], mid, c);
      var word := CodesOf(t, prefix, table)[c];
      if SymbolLeaves(t.right, c) > 0 {
        ContinuesChild(t, prefix, true, word, c);
      } else if SymbolLeaves(t.left, c) > 0 {
        ContinuesChild(t, prefix, false, word, c);
      }
    }
  }

  // ----- The payload's length is the tree's cost -----

  /** Bits spent on symbol c when t hangs at depth d. */
  ghost function SymbolBits(t: Tree, c: nat, d: nat): nat {
    if t.Nil? then 0
    else if IsLeaf(t) then (if t.data == c then t.freq * d else 0)
    else SymbolBits(t.left, c, d + 1) + SymbolBits(t.right, c, d + 1)
  }

  /** Bits spent on the symbols below n. */
  ghost function BitsBelow(t: Tree, d: nat, n: nat): nat {
    if n == 0 then 0 else BitsBelow(t, d, n - 1) + SymbolBits(t, n - 1, d)
  }

  lemma {:induction false} BitsBelowLeaf(t: Tree, d: nat, n: nat)
    requires t.Node? && IsLeaf(t)
    ensures BitsBelow(t, d, n) == if t.data < n then t.freq * d else 0
  {
    if n > 0 {
      BitsBelowLeaf(t, d, n - 1);
    }
  }

  lemma {:induction false} BitsBelowNode(t: Tree, d: nat, n: nat)
    requires t.Node? && !IsLeaf(t)
    ensures BitsBelow(t, d, n) == BitsBelow(t.left, d + 1, n) + BitsBelow(t.right, d + 1, n)
  {
    if n > 0 {
      BitsBelowNode(t, d, n - 1);
    }
  }

  lemma {:induction false} BitsAreCost(t: Tree, d: nat)
    requires Weighed(t)
    ensures BitsBelow(t, d, 256) == CostOf(t) + t.freq * d
  {
    if IsLeaf(t) {
      BitsBelowLeaf(t, d, 256);
    } else {
      BitsBelowNode(t, d, 256);
      BitsAreCost(t.left, d + 1);
      BitsAreCost(t.right, d + 1);
      Deeper(t.left.freq, t.right.freq, d);
    }
  }

  lemma Deeper(x: nat, y: nat, d: nat)
    ensures x * (d + 1) + y * (d + 1) == (x + y) * d + (x + y)
  {}

  /** All leaves with symbol c weigh f. */
  ghost predicate SymbolWeighs(t: Tree, c: nat, f: nat) {
    t.Node? ==>
      if IsLeaf(t) then t.data == c ==> t.freq == f
      else SymbolWeighs(t.left, c, f) && SymbolWeighs(t.right, c, f)
  }

  /** With one leaf per symbol, a symbol's bits are its frequency times the length of its code. */
  lemma {:induction false} SymbolBitsAreCodeBits(t: Tree, prefix: seq<bool>, table: Codes, c: Byte, f: nat)
    requires Proper(t) && (prefix != [] || !IsLeaf(t)) && SymbolWeighs(t, c, f) && SymbolLeaves(t, c) <= 1
    ensures SymbolBits(t, c, |prefix|) ==
      if SymbolLeaves(t, c) == 0 then 0 else f * |CodesOf(t, prefix, table)[c]|
  {
    if !IsLeaf(t) {
      var mid := CodesOf(t.left, prefix + [false], table);
      SymbolBitsAreCodeBits(t.left, prefix + [false], table, c, f);
      SymbolBitsAreCodeBits(t.right, prefix + [true], mid, c, f);
      CodesLead(t.right, prefix + [true], mid, c);
    }
  }
}
