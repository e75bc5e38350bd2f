/** Huffman trees: their shape, the preorder header that stores them, and walking them bit by bit. */
module HuffmanTrees {
  import opened BitStreams

  /** A node owns its two subtrees; Nil is the null pointer. A node is never changed once linked. */
  datatype Tree = Nil | Node(data: Byte, freq: nat, left: Tree, right: Tree)

  const DOLLAR: Byte := 36

  function Leaf(data: Byte, freq: nat): Tree {
    Node(data, freq, Nil, Nil)
  }

  predicate IsLeaf(t: Tree)
    requires t.Node?
  {
    t.left.Nil? && t.right.Nil?
  }

  /** Every node has two children or none; internal nodes carry the dollar sign. */
  ghost predicate Proper(t: Tree) {
    t.Node? && (IsLeaf(t) || (t.data == DOLLAR && Proper(t.left) && Proper(t.right)))
  }

  ghost function Leaves(t: Tree): nat {
    if t.Nil? then 0 else if IsLeaf(t) then 1 else Leaves(t.left) + Leaves(t.right)
  }

  /** The tree that comes back from a header: frequencies are not stored. */
  function Erase(t: Tree): Tree {
    if t.Nil? then Nil else Node(t.data, 0, Erase(t.left), Erase(t.right))
  }

  /** Preorder header: 0 for an internal node, 1 and eight symbol bits for a leaf. */
  function Serialize(t: Tree): seq<bool> {
    if t.Nil? then []
    else if IsLeaf(t) then [true] + ToBits(t.data, 8)
    else [false] + Serialize(t.left) + Serialize(t.right)
  }

  /** What the header reader makes of any bit string: a tree, possibly with null children where the bits
      ran out, and the bits left over. */
  function Parse(bits: seq<bool>): (r: (Tree, seq<bool>))
    ensures |r.1| <= |bits|
    decreases |bits|
  {
    if bits == [] then (Nil, [])
    else if bits[0] then
      if |bits| < 9 then (Nil, []) else
        ByteBound(bits[1..9]);
        (Leaf(FromBits(bits[1..9]), 0), bits[9..])
    else
      var (l, afterLeft) := Parse(bits[1..]);
      var (r, rest) := Parse(afterLeft);
      (Node(DOLLAR, 0, l, r), rest)
  }

  lemma ByteBound(bits: seq<bool>)
    requires |bits| == 8
    ensures FromBits(bits) < 256
  {
    ToFromBits(bits);
    assert Pow2(8) == 256;
  }

  /** Header round trip: whatever follows a serialized tree, parsing stops exactly at its end. */
  lemma {:induction false} ParseSerialize(t: Tree, rest: seq<bool>)
    requires Proper(t)
    ensures Parse(Serialize(t) + rest) == (Erase(t), rest)
  {
    var bits := Serialize(t) + rest;
    if IsLeaf(t) {
      assert Pow2(8) == 256;
      FromToBits(t.data, 8);
      assert bits[1..9] == ToBits(t.data, 8);
      assert bits[9..] == rest;
    } else {
      var l, r := Serialize(t.left), Serialize(t.right);
      assert bits[1..] == l + (r + rest);
      ParseSerialize(t.left, r + rest);
      ParseSerialize(t.right, rest);
    }
  }

  /** The bits are used up, or they are the header of t and what is left. */
  ghost predicate IsParsed(bits: seq<bool>, t: Tree, rest: seq<bool>) {
    Erase(t) == t && (rest == [] || (Proper(t) && bits == Serialize(t) + rest))
  }

  lemma ParsedLeaf(bits: seq<bool>)
    requires |bits| >= 9 && bits[0]
    ensures IsParsed(bits, Parse(bits).0, Parse(bits).1)
  {
    var word := bits[1..9];
    ByteBound(word);
    ToFromBits(word);
    assert Serialize(Leaf(FromBits(word), 0)) == [true] + word;
    assert bits == [true] + word + bits[9..];
  }

  lemma ParsedNode(bits: seq<bool>, l: Tree, afterLeft: seq<bool>, r: Tree, rest: seq<bool>)
    requires bits != [] && !bits[0] && IsParsed(bits[1..], l, afterLeft) && IsParsed(afterLeft, r, rest)
    requires afterLeft == [] ==> rest == []
    ensures IsParsed(bits, Node(DOLLAR, 0, l, r), rest)
  {
    var t := Node(DOLLAR, 0, l, r);
    if rest != [] {
      assert Serialize(t) == [false] + Serialize(l) + Serialize(r);
      Regroup([false], Serialize(l), Serialize(r), rest);
      Regroup(Serialize(l), Serialize(r), rest, []);
      assert bits == [false] + bits[1..];
    }
  }

  /** The other direction, for any bits: only behind the header of a proper tree does the reader leave anything. */
  lemma {:induction false} ParseInverts(bits: seq<bool>)
    ensures IsParsed(bits, Parse(bits).0, Parse(bits).1)
    decreases |bits|
  {
    if bits != [] && bits[0] {
      if |bits| >= 9 {
        ParsedLeaf(bits);
      }
    } else if bits != [] {
      var (l, afterLeft) := Parse(bits[1..]);
      var (r, rest) := Parse(afterLeft);
      ParseInverts(bits[1..]);
      ParseInverts(afterLeft);
      ParsedNode(bits, l, afterLeft, r, rest);
    }
  }

  /** A proper tree with k leaves takes k - 1 internal bits and 9k leaf bits. */
  lemma {:induction false} SerializedLength(t: Tree)
    requires Proper(t)
    ensures Leaves(t) >= 1 && |Serialize(t)| == 10 * Leaves(t) - 1
  {
    if !IsLeaf(t) {
      SerializedLength(t.left);
      SerializedLength(t.right);
    }
  }

  function Child(t: Tree, bit: bool): Tree
    requires t.Node?
  {
    if bit then t.right else t.left
  }

  /** The word leads from t, through internal nodes only, to a leaf with symbol c. */
  ghost predicate Leads(t: Tree, word: seq<bool>, c: Byte) {
    t.Node? &&
    if word == [] then IsLeaf(t) && t.data == c
    else !IsLeaf(t) && Leads(Child(t, word[0]), word[1..], c)
  }

  lemma {:induction false} LeadsErased(t: Tree, word: seq<bool>, c: Byte)
    requires Leads(t, word, c)
    ensures Leads(Erase(t), word, c)
  {
    if word != [] {
      LeadsErased(Child(t, word[0]), word[1..], c);
    }
  }

  /** The decoding loop from node curr, until want symbols are out, the bits end or a null child is met. */
  function Decode(root: Tree, curr: Tree, bits: seq<bool>, want: nat): (out: seq<Byte>)
    requires curr.Node? && root.Node?
    ensures |out| <= want
    decreases |bits|
  {
    if want == 0 || bits == [] then []
    else
      var next := Child(curr, bits[0]);
      if next.Nil? then []
      else if IsLeaf(next) then [next.data] + Decode(root, root, bits[1..], want - 1)
      else Decode(root, next, bits[1..], want)
  }

  /** Decoding a code word yields its symbol and starts over at the root. */
  lemma {:induction false} DecodeWord(root: Tree, curr: Tree, word: seq<bool>, c: Byte, rest: seq<bool>, want: nat)
    requires root.Node? && word != [] && Leads(curr, word, c) && want > 0
    ensures Decode(root, curr, word + rest, want) == [c] + Decode(root, root, rest, want - 1)
  {
    var bits := word + rest;
    assert bits[1..] == word[1..] + rest;
    if |word| == 1 {
      assert word[1..] == [] && bits[1..] == rest;
    } else {
      DecodeWord(root, Child(curr, word[0]), word[1..], c, rest, want);
    }
  }

  /** The words one after the other. */
  ghost function Flat(words: seq<seq<bool>>): seq<bool> {
    if words == [] then [] else words[0] + Flat(words[1..])
  }

  /** No word that the bits start with leads to a leaf. */
  ghost predicate LeadsNowhere(t: Tree, bits: seq<bool>) {
    forall k: nat, c: Byte :: k <= |bits| ==> !Leads(t, bits[..k], c)
  }

  /** The decoding loop either takes a first word off the bits, or finds that they start with none. */
  lemma {:induction false} FirstWord(root: Tree, curr: Tree, bits: seq<bool>, want: nat) returns (k: nat, c: Byte)
    requires curr.Node? && root.Node? && !IsLeaf(curr) && want > 0
    ensures k <= |bits|
    ensures if k == 0 then Decode(root, curr, bits, want) == [] && LeadsNowhere(curr, bits)
      else Leads(curr, bits[..k], c) && Decode(root, curr, bits, want) == [c] + Decode(root, root, bits[k..], want - 1)
    decreases |bits|
  {
    k, c := 0, 0;
    if bits != [] {
      var next, rest := Child(curr, bits[0]), bits[1..];
      if next.Node? && IsLeaf(next) {
        k, c := 1, next.data;
        assert bits[..1][1..] == [];
      } else if next.Node? {
        k, c := FirstWord(root, next, rest, want);
        ShiftWord(curr, bits, k, c);
      }
      if k == 0 {
        forall m: nat, d: Byte | m <= |bits|
          ensures !Leads(curr, bits[..m], d)
        {
          if m > 0 {
            assert bits[..m][1..] == rest[..m - 1];
          }
        }
      }
      k := if next.Node? && !IsLeaf(next) && k > 0 then k + 1 else k;
    }
  }

  lemma ShiftWord(curr: Tree, bits: seq<bool>, k: nat, c: Byte)
    requires curr.Node? && !IsLeaf(curr) && bits != [] && k < |bits|
    requires k > 0 ==> Leads(Child(curr, bits[0]), bits[1..][..k], c)
    ensures k > 0 ==> Leads(curr, bits[..k + 1], c)
    ensures bits[k + 1..] == bits[1..][k..]
  {
    assert bits[..k + 1][1..] == bits[1..][..k];
  }

  /** Decoding any bits, whatever the tree: the output is what the words at the front of the bits lead to, one after
      the other, and it falls short of want only if no further word follows. */
  lemma {:induction false} DecodeReads(root: Tree, bits: seq<bool>, want: nat)
    returns (words: seq<seq<bool>>, rest: seq<bool>)
    requires root.Node? && !IsLeaf(root)
    ensures bits == Flat(words) + rest
    ensures var out := Decode(root, root, bits, want);
      && |words| == |out| <= want
      && (forall i :: 0 <= i < |out| ==> Leads(root, words[i], out[i]))
      && (|out| < want ==> LeadsNowhere(root, rest))
    decreases want
  {
    words, rest := [], bits;
    if want > 0 {
      var k, c := FirstWord(root, root, bits, want);
      if k > 0 {
        words, rest := DecodeReads(root, bits[k..], want - 1);
        assert bits == bits[..k] + bits[k..];
        Regroup(bits[..k], Flat(words), rest, []);
        words := [bits[..k]] + words;
      }
    }
  }

  /** The payload: the code words of the text, one after the other. */
  function Encode(code: seq<seq<bool>>, text: seq<Byte>): seq<bool>
    requires |code| == 256
  {
    if text == [] then [] else code[text[0]] + Encode(code, text[1..])
  }

  /** Payload round trip, whatever padding follows. */
  lemma {:induction false} DecodeEncode(root: Tree, code: seq<seq<bool>>, text: seq<Byte>, rest: seq<bool>)
    requires root.Node? && !IsLeaf(root) && |code| == 256
    requires forall c :: c in text ==> Leads(root, code[c], c)
    ensures Decode(root, root, Encode(code, text) + rest, |text|) == text
  {
    if text != [] {
      var word, tail := code[text[0]], Encode(code, text[1..]);
      assert Encode(code, text) + rest == word + (tail + rest);
      DecodeWord(root, root, word, text[0], tail + rest, |text|);
      DecodeEncode(root, code, text[1..], rest);
    }
  }

  lemma Regroup<T>(a: seq<T>, b: seq<T>, c: seq<T>, d: seq<T>)
    ensures a + b + c + d == a + (b + c + d)
    ensures a + b + c == a + (b + c)
  {}

  /** The recursive header writer. */
  method SerializeTreePreorder(root: Tree, bw: BitWriter)
    requires bw.Valid()
    modifies bw
    ensures bw.Valid() && bw.Bits() == old(bw.Bits()) + Serialize(root)
    decreases root
  {
    if root.Nil? {
      return;
    }
    if IsLeaf(root) {
      ghost var before := bw.Bits();
      bw.WriteBit(true);
      bw.WriteBits(root.data, 8);
      Regroup(before, [true], ToBits(root.data, 8), []);
    } else {
      ghost var before, l, r := bw.Bits(), Serialize(root.left), Serialize(root.right);
      bw.WriteBit(false);
      SerializeTreePreorder(root.left, bw);
      SerializeTreePreorder(root.right, bw);
      Regroup(before, [false], l, r);
    }
  }

  /** The recursive header reader, on any input. */
  method DeserializeTreePreorder(br: BitReader) returns (t: Tree)
    requires br.Valid()
    modifies br
    ensures br.Valid()
    ensures (t, br.Remaining()) == Parse(old(br.Remaining()))
    decreases |br.Remaining()|
  {
    var bit := br.ReadBit();
    if bit == -1 {
      return Nil;
    }
    if bit == 1 {
      var ok, charVal := br.ReadBits(8);
      if !ok {
        return Nil;
      }
      assert old(br.Remaining())[1..9] == old(br.Remaining())[1..][..8];
      ByteBound(old(br.Remaining())[1..9]);
      return Leaf(charVal, 0);
    } else {
      var left := DeserializeTreePreorder(br);
      var right := DeserializeTreePreorder(br);
      return Node(DOLLAR, 0, left, right);
    }
  }
}
