/** Prefix-free binary codes: each one costs at least as much as some full binary tree over its weights. */
module PrefixCodes {
  import opened WeightTrees

  /** A code word together with how often it is sent. */
  datatype Entry = Entry(w: nat, word: seq<bool>)

  /** Neither word is a prefix of the other. */
  ghost predicate Incomparable(u: seq<bool>, v: seq<bool>) {
    !(u <= v) && !(v <= u)
  }

  ghost predicate PrefixFree(c: seq<Entry>) {
    c == [] || ((forall e :: e in c[1..] ==> Incomparable(c[0].word, e.word)) && PrefixFree(c[1..]))
  }

  /** Total number of bits sent. */
  ghost function Bits(c: seq<Entry>): nat {
    if c == [] then 0 else c[0].w * |c[0].word| + Bits(c[1..])
  }

  ghost function Occurrences(c: seq<Entry>, z: nat): nat {
    if c == [] then 0 else One(c[0].w, z) + Occurrences(c[1..], z)
  }

  ghost function Total(c: seq<Entry>): nat {
    if c == [] then 0 else c[0].w + Total(c[1..])
  }

  ghost function Letters(c: seq<Entry>): nat {
    if c == [] then 0 else |c[0].word| + Letters(c[1..])
  }

  ghost predicate NoEmptyWord(c: seq<Entry>) {
    forall e :: e in c ==> e.word != []
  }

  /** The words that start with bit, without it. */
  ghost function After(c: seq<Entry>, bit: bool): seq<Entry>
    requires NoEmptyWord(c)
  {
    if c == [] then [] else
      var rest := After(c[1..], bit);
      if c[0].word[0] == bit then [Entry(c[0].w, c[0].word[1..])] + rest else rest
  }

  lemma {:induction false} AfterComesFrom(c: seq<Entry>, bit: bool, e: Entry)
    requires NoEmptyWord(c) && e in After(c, bit)
    ensures Entry(e.w, [bit] + e.word) in c
  {
    if c[0].word[0] == bit && e == Entry(c[0].w, c[0].word[1..]) {
      assert [bit] + e.word == c[0].word;
    } else {
      AfterComesFrom(c[1..], bit, e);
    }
  }

  lemma SameStart(bit: bool, u: seq<bool>, v: seq<bool>)
    requires Incomparable([bit] + u, [bit] + v)
    ensures Incomparable(u, v)
  {}

  lemma {:induction false} AfterPrefixFree(c: seq<Entry>, bit: bool)
    requires NoEmptyWord(c) && PrefixFree(c)
    ensures PrefixFree(After(c, bit))
  {
    if c != [] {
      AfterPrefixFree(c[1..], bit);
      var rest := After(c[1..], bit);
      if c[0].word[0] == bit {
        var e0 := Entry(c[0].w, c[0].word[1..]);
        forall e | e in rest
          ensures Incomparable(e0.word, e.word)
        {
          AfterComesFrom(c[1..], bit, e);
          assert c[0].word == [bit] + e0.word;
          SameStart(bit, e0.word, e.word);
        }
        assert ([e0] + rest)[1..] == rest;
      }
    }
  }

  lemma OneBitLess(w: nat, n: nat)
    ensures w * (n + 1) == w * n + w
  {}

  lemma {:induction false} SplitBits(c: seq<Entry>)
    requires NoEmptyWord(c)
    ensures Bits(c) == Bits(After(c, false)) + Bits(After(c, true)) + Total(c)
    ensures Total(c) == Total(After(c, false)) + Total(After(c, true))
    ensures Letters(c) == Letters(After(c, false)) + Letters(After(c, true)) + |c|
  {
    if c != [] {
      SplitBits(c[1..]);
      var bit := c[0].word[0];
      var e0 := Entry(c[0].w, c[0].word[1..]);
      assert ([e0] + After(c[1..], bit))[1..] == After(c[1..], bit);
      OneBitLess(e0.w, |e0.word|);
    }
  }

  lemma {:induction false} SplitOccurrences(c: seq<Entry>, z: nat)
    requires NoEmptyWord(c)
    ensures Occurrences(c, z) == Occurrences(After(c, false), z) + Occurrences(After(c, true), z)
  {
    if c != [] {
      SplitOccurrences(c[1..], z);
      var bit := c[0].word[0];
      assert ([Entry(c[0].w, c[0].word[1..])] + After(c[1..], bit))[1..] == After(c[1..], bit);
    }
  }

  lemma {:induction false} WordsNonempty(c: seq<Entry>)
    requires PrefixFree(c) && |c| >= 2
    ensures NoEmptyWord(c)
  {
    assert Incomparable(c[0].word, c[1].word) by { assert c[1] in c[1..]; }
    if |c| > 2 {
      WordsNonempty(c[1..]);
    }
    assert forall e :: e in c ==> e == c[0] || e in c[1..];
  }

  /** Reading a prefix-free code as a tree, and cutting out nodes with a single child, costs nothing. */
  lemma {:induction false} CodeToShape(c: seq<Entry>) returns (t: Shape)
    requires PrefixFree(c) && c != []
    ensures forall z: nat :: Count(t, z) == Occurrences(c, z)
    ensures Sum(t) == Total(c) && Cost(t) <= Bits(c)
    decreases Letters(c)
  {
    if |c| == 1 {
      t := Tip(c[0].w);
    } else {
      WordsNonempty(c);
      SplitBits(c);
      var c0, c1 := After(c, false), After(c, true);
      AfterPrefixFree(c, false);
      AfterPrefixFree(c, true);
      forall z: nat
        ensures Occurrences(c, z) == Occurrences(c0, z) + Occurrences(c1, z)
      {
        SplitOccurrences(c, z);
      }
      if c0 == [] {
        t := CodeToShape(c1);
      } else if c1 == [] {
        t := CodeToShape(c0);
      } else {
        var t0 := CodeToShape(c0);
        var t1 := CodeToShape(c1);
        t := Fork(t0, t1);
      }
    }
  }
}
