/** The array-based min-heap of tree nodes, ordered by frequency. */
module MinHeaps {
  import opened HuffmanTrees
  import Multisets

  ghost predicate AllNodes(s: seq<Tree>) {
    forall i :: 0 <= i < |s| ==> s[i].Node?
  }

  function Parent(i: int): int {
    (i - 1) / 2
  }

  lemma ChildIndex(i: nat)
    requires i > 0
    ensures 0 <= Parent(i) < i && (i == 2 * Parent(i) + 1 || i == 2 * Parent(i) + 2)
  {}

  /** Every entry, except those below index hole, is at least its parent. */
  ghost predicate HeapBut(s: seq<Tree>, hole: int)
    requires AllNodes(s)
  {
    forall i :: 0 < i < |s| && Parent(i) != hole ==> s[Parent(i)].freq <= s[i].freq
  }

  ghost predicate IsHeap(s: seq<Tree>)
    requires AllNodes(s)
  {
    HeapBut(s, -1)
  }

  /** The entries below index k respect the parent of k. */
  ghost predicate Bridged(s: seq<Tree>, k: nat)
    requires AllNodes(s)
  {
    k > 0 ==> forall i :: 0 < i < |s| && Parent(i) == k ==> s[Parent(k)].freq <= s[i].freq
  }

  /** The root of a heap is a least entry. */
  lemma {:induction false} RootIsLeast(s: seq<Tree>, i: nat)
    requires AllNodes(s) && IsHeap(s) && i < |s|
    ensures s[0].freq <= s[i].freq
  {
    if i > 0 {
      RootIsLeast(s, Parent(i));
    }
  }

  ghost function Exchanged(s: seq<Tree>, i: nat, j: nat): seq<Tree>
    requires i < |s| && j < |s|
  {
    s[i := s[j]][j := s[i]]
  }

  /** The index, among idx and its children, that holds the least frequency, leftmost first. */
  ghost function Smallest(s: seq<Tree>, idx: nat): (k: nat)
    requires AllNodes(s)
    ensures k == idx || (idx < k < |s| && Parent(k) == idx)
    ensures idx < |s| && k != idx ==> s[k].freq < s[idx].freq
    ensures 2 * idx + 1 < |s| ==> s[k].freq <= s[2 * idx + 1].freq
    ensures 2 * idx + 2 < |s| ==> s[k].freq <= s[2 * idx + 2].freq
  {
    var left, right := 2 * idx + 1, 2 * idx + 2;
    if left >= |s| then idx else
      var best := if s[left].freq < s[idx].freq then left else idx;
      if right < |s| && s[right].freq < s[best].freq then right else best
  }

  /** What sifting down from idx makes of the heap array. */
  ghost function Sifted(s: seq<Tree>, idx: nat): (u: seq<Tree>)
    requires AllNodes(s)
    ensures |u| == |s| && AllNodes(u)
    decreases |s| - idx
  {
    var k := Smallest(s, idx);
    if k == idx then s else Sifted(Exchanged(s, k, idx), k)
  }

  lemma SiftStep(s: seq<Tree>, idx: nat)
    requires AllNodes(s) && HeapBut(s, idx) && Bridged(s, idx)
    ensures var k := Smallest(s, idx);
      if k == idx then IsHeap(s)
      else var u := Exchanged(s, k, idx); AllNodes(u) && HeapBut(u, k) && Bridged(u, k)
  {
    var k := Smallest(s, idx);
    forall i | 0 < i < |s| && Parent(i) == idx
      ensures s[k].freq <= s[i].freq
    {
      ChildIndex(i);
    }
    if k != idx {
      SwapStep(s, idx, k);
    }
  }

  lemma SwapStep(s: seq<Tree>, idx: nat, k: nat)
    requires AllNodes(s) && HeapBut(s, idx) && Bridged(s, idx)
    requires idx < k < |s| && Parent(k) == idx && s[k].freq <= s[idx].freq
    requires forall i :: 0 < i < |s| && Parent(i) == idx ==> s[k].freq <= s[i].freq
    ensures var u := Exchanged(s, k, idx); AllNodes(u) && HeapBut(u, k) && Bridged(u, k)
  {
    var u := Exchanged(s, k, idx);
    forall i | 0 < i < |u| && Parent(i) != k
      ensures u[Parent(i)].freq <= u[i].freq
    {
      if i != k && i != idx && Parent(i) != idx {
        assert u[i] == s[i] && u[Parent(i)] == s[Parent(i)];
      }
    }
  }

  /** Sifting down repairs the heap and keeps its entries. */
  lemma {:induction false} SiftRepairs(s: seq<Tree>, idx: nat)
    requires AllNodes(s) && HeapBut(s, idx) && Bridged(s, idx)
    ensures var u := Sifted(s, idx); AllNodes(u) && IsHeap(u) && multiset(u) == multiset(s)
    decreases |s| - idx
  {
    SiftStep(s, idx);
    var k := Smallest(s, idx);
    if k != idx {
      Multisets.Swap(s, k, idx);
      SiftRepairs(Exchanged(s, k, idx), k);
    }
  }

  /** Every entry but the one at index i is at least its parent. */
  ghost predicate HeapAbove(s: seq<Tree>, i: nat)
    requires AllNodes(s)
  {
    forall j :: 0 < j < |s| && j != i ==> s[Parent(j)].freq <= s[j].freq
  }

  /** What lifting the entry at index i makes of the heap array. */
  ghost function Lifted(s: seq<Tree>, i: nat): (u: seq<Tree>)
    requires AllNodes(s) && i < |s|
    ensures |u| == |s| && AllNodes(u)
    decreases i
  {
    if i == 0 || s[Parent(i)].freq <= s[i].freq then s else Lifted(Exchanged(s, Parent(i), i), Parent(i))
  }

  lemma LiftStep(s: seq<Tree>, i: nat)
    requires AllNodes(s) && 0 < i < |s| && HeapAbove(s, i) && Bridged(s, i)
    requires s[i].freq <= s[Parent(i)].freq
    ensures var u := Exchanged(s, Parent(i), i); AllNodes(u) && HeapAbove(u, Parent(i)) && Bridged(u, Parent(i))
  {
    var p, u := Parent(i), Exchanged(s, Parent(i), i);
    forall j | 0 < j < |u| && j != p
      ensures u[Parent(j)].freq <= u[j].freq
    {
      if j != i && Parent(j) != i && Parent(j) != p {
        assert u[j] == s[j] && u[Parent(j)] == s[Parent(j)];
      }
    }
    forall j | 0 < j < |u| && Parent(j) == p && p > 0
      ensures u[Parent(p)].freq <= u[j].freq
    {
      assert s[Parent(p)].freq <= s[p].freq <= s[j].freq || j == i;
    }
  }

  /** Lifting the entry repairs the heap and keeps its entries. */
  lemma {:induction false} LiftRepairs(s: seq<Tree>, i: nat)
    requires AllNodes(s) && i < |s| && HeapAbove(s, i) && Bridged(s, i)
    ensures var u := Lifted(s, i); AllNodes(u) && IsHeap(u) && multiset(u) == multiset(s)
    decreases i
  {
    if i > 0 && s[i].freq < s[Parent(i)].freq {
      LiftStep(s, i);
      Multisets.Swap(s, Parent(i), i);
      LiftRepairs(Exchanged(s, Parent(i), i), Parent(i));
    }
  }

  /** The heap array after taking out the root: the last entry sifts down from the top. */
  ghost function Extracted(s: seq<Tree>): (u: seq<Tree>)
    requires AllNodes(s) && |s| > 0
    ensures |u| == |s| - 1 && AllNodes(u)
  {
    Sifted(s[0 := s[|s| - 1]][..|s| - 1], 0)
  }

  /** The heap array after entering a node: it is lifted from the bottom. */
  ghost function Inserted(s: seq<Tree>, node: Tree): (u: seq<Tree>)
    requires AllNodes(s) && node.Node?
    ensures |u| == |s| + 1 && AllNodes(u)
  {
    Lifted(s + [node], |s|)
  }

  /** Extraction takes a least node out of a heap and leaves a heap. */
  lemma ExtractedIsHeap(s: seq<Tree>)
    requires AllNodes(s) && IsHeap(s) && |s| > 0
    ensures IsHeap(Extracted(s)) && multiset(s) == multiset(Extracted(s)) + multiset{s[0]}
  {
    Multisets.MoveLast(s);
    SiftRepairs(s[0 := s[|s| - 1]][..|s| - 1], 0);
  }

  lemma InsertedIsHeap(s: seq<Tree>, node: Tree)
    requires AllNodes(s) && IsHeap(s) && node.Node?
    ensures IsHeap(Inserted(s, node)) && multiset(Inserted(s, node)) == multiset(s) + multiset{node}
  {
    LiftRepairs(s + [node], |s|);
  }

  class MinHeap {
    const entries: array<Tree>
    var size: nat

    ghost predicate Valid()
      reads this, entries
    {
      size <= entries.Length && AllNodes(entries[..size]) && IsHeap(entries[..size])
    }

    ghost function Items(): seq<Tree>
      reads this, entries
      requires size <= entries.Length
    {
      entries[..size]
    }

    constructor (capacity: nat)
      ensures Valid() && Items() == [] && fresh(entries) && entries.Length == capacity
    {
      entries := new Tree[capacity](_ => Nil);
      size := 0;
    }

    method MinHeapify(idx: nat)
      requires size <= entries.Length && AllNodes(entries[..size])
      modifies entries
      ensures Items() == Sifted(old(Items()), idx)
      decreases size - idx
    {
      ghost var s := entries[..size];
      var smallest, left, right := idx, 2 * idx + 1, 2 * idx + 2;
      if left < size && entries[left].freq < entries[smallest].freq {
        smallest := left;
      }
      if right < size && entries[right].freq < entries[smallest].freq {
        smallest := right;
      }
      assert smallest == Smallest(s, idx);
      if smallest != idx {
        entries[smallest], entries[idx] := entries[idx], entries[smallest];
        assert entries[..size] == Exchanged(s, smallest, idx);
        MinHeapify(smallest);
      }
    }

    /** Removes and returns the root; Nil from an empty heap. */
    method ExtractMin() returns (t: Tree)
      requires Valid()
      modifies this, entries
      ensures Valid()
      ensures old(Items()) == [] ==> t == Nil && Items() == []
      ensures old(Items()) != [] ==> t == old(Items())[0] && Items() == Extracted(old(Items()))
    {
      if size == 0 {
        return Nil;
      }
      ghost var s := entries[..size];
      t := entries[0];
      entries[0] := entries[size - 1];
      size := size - 1;
      assert entries[..size] == s[0 := s[|s| - 1]][..|s| - 1];
      MinHeapify(0);
      ExtractedIsHeap(s);
    }

    method InsertMinHeap(node: Tree)
      requires Valid() && size < entries.Length && node.Node?
      modifies this, entries
      ensures Valid() && Items() == Inserted(old(Items()), node)
    {
      ghost var s := entries[..size];
      ghost var start := s + [node];
      size := size + 1;
      var i := size - 1;
      assert entries[..size][i := node] == start;
      while i > 0 && node.freq < entries[(i - 1) / 2].freq
        invariant 0 <= i < size <= entries.Length && size == |start|
        invariant AllNodes(start) && AllNodes(entries[..size][i := node])
        invariant Lifted(entries[..size][i := node], i) == Lifted(start, |s|)
      {
        ghost var u := entries[..size][i := node];
        entries[i] := entries[(i - 1) / 2];
        assert entries[..size][Parent(i) := node] == Exchanged(u, Parent(i), i);
        i := (i - 1) / 2;
      }
      entries[i] := node;
      assert entries[..size] == Lifted(start, |s|);
      InsertedIsHeap(s, node);
    }
  }
}
