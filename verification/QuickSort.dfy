/** The randomised quick sort of the rainfall records, for every stream of random numbers, and the range query. */
module QuickSort {
  import opened MergeSort
  import Multisets

  /** What the sort works on: the array, the counters, and how many random numbers it has drawn. */
  datatype Table = Table(arr: seq<Record>, comparisons: nat, swaps: nat, drawn: nat)

  ghost function Swapped(t: Table, a: nat, b: nat): (u: Table)
    requires a < |t.arr| && b < |t.arr|
    ensures |u.arr| == |t.arr|
  {
    t.(arr := t.arr[a := t.arr[b]][b := t.arr[a]], swaps := t.swaps + 1)
  }

  // ----- The program -----

  class QuickSorter {
    const rand: nat -> nat
    var drawn: nat
    var quickComparisons: nat
    var quickSwaps: nat

    constructor (rand: nat -> nat)
      ensures this.rand == rand && drawn == quickComparisons == quickSwaps == 0
    {
      this.rand := rand;
      drawn, quickComparisons, quickSwaps := 0, 0, 0;
    }

    ghost function Now(arr: array<Record>): (t: Table)
      reads this, arr
      ensures |t.arr| == arr.Length
    {
      Table(arr[..], quickComparisons, quickSwaps, drawn)
    }

    method SwapRecords(arr: array<Record>, a: nat, b: nat)
      requires a < arr.Length && b < arr.Length
      modifies this`quickSwaps, arr
      ensures Now(arr) == Swapped(old(Now(arr)), a, b)
      ensures quickSwaps == old(quickSwaps) + 1 && arr[a] == old(arr[b]) && arr[b] == old(arr[a])
    {
      arr[a], arr[b] := arr[b], arr[a];
      quickSwaps := quickSwaps + 1;
    }

    /** The scan of a partition around the record at high. */
    method Scan(arr: array<Record>, low: nat, high: nat) returns (p: nat)
      requires low < high < arr.Length
      modifies this`quickComparisons, this`quickSwaps, arr
      ensures Split(Now(arr), p) == ScanRun(Split(old(Now(arr)), low), low, high)
      ensures low <= p <= high
    {
      ghost var s := Split(Now(arr), low);
      var pivot := arr[high].annual;
      p := low;
      var j := low;
      while j < high
        invariant low <= p <= j <= high && arr[high].annual == pivot
        invariant Split(Now(arr), p) == s
        invariant ScanRun(s, j, high) == ScanRun(Split(old(Now(arr)), low), low, high)
      {
        s := ScanStep(s, j, high);
        quickComparisons := quickComparisons + 1;
        if arr[j].annual <= pivot {
          if p != j {
            SwapRecords(arr, p, j);
          }
          p := p + 1;
        }
        j := j + 1;
      }
    }

    /** Partitions arr[low..high] around a randomly chosen record. */
    method Partition(arr: array<Record>, low: nat, high: nat) returns (p: nat)
      requires low < high < arr.Length
      modifies this, arr
      ensures Split(Now(arr), p) == PartitionRun(old(Now(arr)), rand, low, high)
      ensures drawn == old(drawn) + 1 && arr[p] == old(arr[low + rand(drawn) % (high - low + 1)])
      ensures quickComparisons == old(quickComparisons) + (high - low)
      ensures old(quickSwaps) + 1 <= quickSwaps <= old(quickSwaps) + (high - low + 1)
    {
      PartitionSplits(Now(arr), rand, low, high);
      var randIdx := low + rand(drawn) % (high - low + 1);
      drawn := drawn + 1;
      SwapRecords(arr, randIdx, high);
      p := Scan(arr, low, high);
      if p != high {
        SwapRecords(arr, p, high);
      }
    }

    /** Sorts arr[low..high]. */
    method QuickSortRec(arr: array<Record>, low: nat, high: int)
      requires low <= high + 1 <= arr.Length
      modifies this, arr
      ensures QuickRun(old(Now(arr)), Now(arr), low, high + 1)
      decreases high + 1 - low
    {
      if low < high {
        PartitionSplits(Now(arr), rand, low, high);
        var p := Partition(arr, low, high);
        ghost var s := Split(Now(arr), p);
        QuickSortRec(arr, low, (p as int) - 1);
        ghost var u := Now(arr);
        QuickSortRec(arr, p + 1, high);
        assert Levels(old(Now(arr)), s, u, Now(arr), low, high + 1);
      }
    }

    /** Sorts the whole array, whatever the random numbers are, with at most one comparison for each pair; with equal
        totals every counter is at its closed form. */
    method QuickSort(arr: array<Record>)
      modifies this, arr
      ensures Sorted(arr[..]) && multiset(arr[..]) == multiset(old(arr[..]))
      ensures quickComparisons <= old(quickComparisons) + Pairs(arr.Length)
      ensures CostsInRange(arr.Length, drawn - old(drawn), quickSwaps - old(quickSwaps),
                           quickComparisons - old(quickComparisons))
      ensures SameTotals(old(arr[..]), 0, arr.Length) ==>
        CostsMost(arr.Length, drawn - old(drawn), quickSwaps - old(quickSwaps),
                  quickComparisons - old(quickComparisons))
    {
      QuickSortRec(arr, 0, arr.Length - 1);
      QuickRunSorts(old(Now(arr)), Now(arr), 0, arr.Length);
      QuickRunCosts(old(Now(arr)), Now(arr), 0, arr.Length);
      SameMultiset(old(arr[..]), arr[..]);
    }
  }

  /** The scan of a partition: records before p are not above the pivot. */
  datatype Split = Split(t: Table, p: nat)

  /** The scan looks at record j, and moves it to p unless it is above the pivot, which is at high. */
  ghost function ScanStep(s: Split, j: nat, high: nat): (u: Split)
    requires s.p <= j < high < |s.t.arr|
    ensures |u.t.arr| == |s.t.arr|
    ensures s.p <= u.p <= j + 1
  {
    var t := s.t.(comparisons := s.t.comparisons + 1);
    if t.arr[j].annual > t.arr[high].annual then Split(t, s.p)
    else Split(if s.p != j then Swapped(t, s.p, j) else t, s.p + 1)
  }

  ghost function ScanRun(s: Split, j: nat, high: nat): (u: Split)
    requires s.p <= j <= high < |s.t.arr|
    ensures |u.t.arr| == |s.t.arr|
    ensures s.p <= u.p <= high
    decreases high - j
  {
    if j == high then s else ScanRun(ScanStep(s, j, high), j + 1, high)
  }

  ghost function Chosen(t: Table, rand: nat -> nat, low: nat, high: nat): (u: Table)
    requires low < high < |t.arr|
    ensures |u.arr| == |t.arr|
  {
    Swapped(t.(drawn := t.drawn + 1), low + rand(t.drawn) % (high - low + 1), high)
  }

  ghost function Closed(s: Split, high: nat): (u: Split)
    requires s.p <= high < |s.t.arr|
    ensures |u.t.arr| == |s.t.arr| && u.p == s.p
  {
    Split(if s.p != high then Swapped(s.t, s.p, high) else s.t, s.p)
  }

  ghost function PartitionRun(t: Table, rand: nat -> nat, low: nat, high: nat): (u: Split)
    requires low < high < |t.arr|
    ensures |u.t.arr| == |t.arr|
    ensures low <= u.p <= high
  {
    Closed(ScanRun(Split(Chosen(t, rand, low, high), low), low, high), high)
  }

  // ----- What it computes -----

  ghost function Times(s: seq<Record>, x: Record): nat {
    if s == [] then 0 else (if s[|s| - 1] == x then 1 else 0) + Times(s[..|s| - 1], x)
  }

  lemma {:induction false} TimesCounts(s: seq<Record>, x: Record)
    ensures Times(s, x) == multiset(s)[x]
  {
    if s != [] {
      TimesCounts(s[..|s| - 1], x);
      assert s == s[..|s| - 1] + [s[|s| - 1]];
    }
  }

  ghost predicate SameRecords(s: seq<Record>, t: seq<Record>) {
    forall x :: Times(t, x) == Times(s, x)
  }

  lemma SameMultiset(s: seq<Record>, t: seq<Record>)
    ensures SameRecords(s, t) <==> multiset(t) == multiset(s)
  {
    forall x: Record
      ensures Times(s, x) == multiset(s)[x] && Times(t, x) == multiset(t)[x]
    {
      TimesCounts(s, x);
      TimesCounts(t, x);
    }
  }

  /** t is s with the records of the stretch l..r in some other order. */
  ghost predicate PermutedIn(s: seq<Record>, t: seq<Record>, l: nat, r: nat) {
    OnlyIn(s, t, l, r) && SameRecords(s, t)
  }

  lemma SwapPermutes(t: Table, a: nat, b: nat, l: nat, r: nat)
    requires l <= a < r <= |t.arr| && l <= b < r
    ensures PermutedIn(t.arr, Swapped(t, a, b).arr, l, r)
  {
    SameMultiset(t.arr, Swapped(t, a, b).arr);
  }

  /** Records l..p are not above the pivot at high, records p..j are. */
  ghost predicate Scanned(s: seq<Record>, l: nat, p: nat, j: nat, high: nat) {
    && l <= p <= j <= high < |s|
    && (forall k :: l <= k < p ==> s[k].annual <= s[high].annual)
    && (forall k :: p <= k < j ==> s[k].annual > s[high].annual)
  }

  /** Swaps since t, when the scan has reached j: none before the first record above the pivot. */
  ghost predicate FewSwaps(t: Table, s: Split, l: nat, j: nat) {
    t.swaps <= s.t.swaps <= t.swaps + if s.p == j then 0 else j - l - 1
  }

  lemma {:induction false} ScanRunSwaps(t: Table, s: Split, l: nat, j: nat, high: nat)
    requires l <= s.p <= j <= high < |s.t.arr| && FewSwaps(t, s, l, j)
    ensures FewSwaps(t, ScanRun(s, j, high), l, high) && ScanRun(s, j, high).t.drawn == s.t.drawn
    ensures ScanRun(s, j, high).t.arr[high] == s.t.arr[high]
    decreases high - j
  {
    if j < high {
      ScanRunSwaps(t, ScanStep(s, j, high), l, j + 1, high);
    }
  }

  lemma ScanStepScans(s: Split, l: nat, j: nat, high: nat)
    requires Scanned(s.t.arr, l, s.p, j, high) && j < high
    ensures Scanned(ScanStep(s, j, high).t.arr, l, ScanStep(s, j, high).p, j + 1, high)
    ensures PermutedIn(s.t.arr, ScanStep(s, j, high).t.arr, l, high + 1)
    ensures ScanStep(s, j, high).t.comparisons == s.t.comparisons + 1
  {
    SwapPermutes(s.t.(comparisons := s.t.comparisons + 1), s.p, j, l, high + 1);
  }

  lemma {:induction false} ScanRunScans(s: Split, l: nat, j: nat, high: nat)
    requires Scanned(s.t.arr, l, s.p, j, high)
    ensures Scanned(ScanRun(s, j, high).t.arr, l, ScanRun(s, j, high).p, high, high)
    ensures PermutedIn(s.t.arr, ScanRun(s, j, high).t.arr, l, high + 1)
    ensures ScanRun(s, j, high).t.comparisons == s.t.comparisons + (high - j)
    decreases high - j
  {
    if j < high {
      ScanStepScans(s, l, j, high);
      ScanRunScans(ScanStep(s, j, high), l, j + 1, high);
    }
  }

  /** Record p is in its final place. */
  ghost predicate Around(s: seq<Record>, l: nat, p: nat, r: nat) {
    && l <= p < r <= |s|
    && (forall k :: l <= k < p ==> s[k].annual <= s[p].annual)
    && (forall k :: p < k < r ==> s[k].annual > s[p].annual)
  }

  lemma ClosedSplits(s: Split, l: nat, high: nat)
    requires Scanned(s.t.arr, l, s.p, high, high)
    ensures Around(Closed(s, high).t.arr, l, s.p, high + 1)
    ensures PermutedIn(s.t.arr, Closed(s, high).t.arr, l, high + 1)
    ensures Closed(s, high).t.comparisons == s.t.comparisons
  {
    SwapPermutes(s.t, s.p, high, l, high + 1);
  }

  /** A record ends at s.p with the others on its two sides, and the counters go up by what that costs. */
  ghost predicate Partitions(t: Table, s: Split, low: nat, high: nat) {
    && Around(s.t.arr, low, s.p, high + 1) && PermutedIn(t.arr, s.t.arr, low, high + 1)
    && s.t.comparisons == t.comparisons + (high - low) && s.t.drawn == t.drawn + 1
    && t.swaps + 1 <= s.t.swaps <= t.swaps + (high - low + 1)
    && (s.p == high ==> s.t.swaps == t.swaps + 1)
  }

  /** A partition puts the pivot in its final place, with exactly one comparison for every other record. */
  lemma PartitionSplits(t: Table, rand: nat -> nat, low: nat, high: nat)
    requires low < high < |t.arr|
    ensures Partitions(t, PartitionRun(t, rand, low, high), low, high)
    ensures var s := PartitionRun(t, rand, low, high); s.t.arr[s.p] == t.arr[low + rand(t.drawn) % (high - low + 1)]
  {
    var c := Chosen(t, rand, low, high);
    SwapPermutes(t.(drawn := t.drawn + 1), low + rand(t.drawn) % (high - low + 1), high, low, high + 1);
    ScanRunScans(Split(c, low), low, low, high);
    ScanRunSwaps(c, Split(c, low), low, low, high);
    ClosedSplits(ScanRun(Split(c, low), low, high), low, high);
  }

  lemma SamePart(a: seq<Record>, x: seq<Record>, y: seq<Record>, b: seq<Record>)
    requires multiset(a + x + b) == multiset(a + y + b)
    ensures multiset(x) == multiset(y)
  {
    Multisets.FromConcat(a + x, b);
    Multisets.FromConcat(a, x);
    Multisets.FromConcat(a + y, b);
    Multisets.FromConcat(a, y);
    Multisets.Cancel(multiset(a) + multiset(x), multiset(a) + multiset(y), multiset(b));
    forall z: Record
      ensures multiset(x)[z] == multiset(y)[z]
    {
      assert (multiset(a) + multiset(x))[z] == (multiset(a) + multiset(y))[z];
    }
  }

  /** A record of a reordered stretch was in that stretch before. */
  lemma PermutedKeeps(s: seq<Record>, t: seq<Record>, l: nat, r: nat, k: nat) returns (i: nat)
    requires PermutedIn(s, t, l, r) && l <= k < r <= |s|
    ensures l <= i < r && s[i] == t[k]
  {
    SameMultiset(s, t);
    assert s == s[..l] + s[l..r] + s[r..];
    assert t == s[..l] + t[l..r] + s[r..];
    SamePart(s[..l], s[l..r], t[l..r], s[r..]);
    var o := FindIn(s[l..r], t[l..r], k - l);
    i := l + o;
  }

  lemma FindIn(x: seq<Record>, y: seq<Record>, k: nat) returns (i: nat)
    requires multiset(x) == multiset(y) && k < |y|
    ensures i < |x| && x[i] == y[k]
  {
    assert y[k] in multiset(y);
    assert y[k] in x;
    i :| 0 <= i < |x| && x[i] == y[k];
  }

  lemma AroundKept(s: seq<Record>, t: seq<Record>, l: nat, p: nat, r: nat, lo: nat, hi: nat)
    requires Around(s, l, p, r) && PermutedIn(s, t, lo, hi)
    requires (lo == l && hi == p) || (lo == p + 1 && hi == r)
    ensures Around(t, l, p, r)
  {
    forall k | lo <= k < hi
      ensures t[k].annual <= t[p].annual <==> hi == p
    {
      var i := PermutedKeeps(s, t, lo, hi, k);
    }
  }

  ghost predicate SortedIn(s: seq<Record>, l: nat, r: nat) {
    r <= |s| && forall i, j :: l <= i < j < r ==> s[i].annual <= s[j].annual
  }

  lemma SortedAround(s: seq<Record>, l: nat, p: nat, r: nat)
    requires Around(s, l, p, r) && SortedIn(s, l, p) && SortedIn(s, p + 1, r)
    ensures SortedIn(s, l, r)
  {}

  lemma SortedKept(s: seq<Record>, t: seq<Record>, l: nat, p: nat, lo: nat, hi: nat)
    requires SortedIn(s, l, p) && OnlyIn(s, t, lo, hi) && p <= lo
    ensures SortedIn(t, l, p)
  {}

  lemma PermutedMore(s: seq<Record>, t: seq<Record>, u: seq<Record>, v: seq<Record>, l: nat, p: nat, r: nat)
    requires PermutedIn(s, t, l, r) && PermutedIn(t, u, l, p) && PermutedIn(u, v, p + 1, r) && l <= p < r
    ensures PermutedIn(s, v, l, r)
  {}

  /** How many pairs n records form. */
  ghost function Pairs(n: nat): nat {
    if n == 0 then 0 else Pairs(n - 1) + n - 1
  }

  lemma {:induction false} PairsClosed(n: nat)
    ensures 2 * Pairs(n) == n * (n - 1)
  {
    if n > 0 {
      PairsClosed(n - 1);
      assert n * (n - 1) == (n - 1) * (n - 2) + 2 * (n - 1);
    }
  }

  lemma {:induction false} PairsSplit(a: nat, b: nat)
    ensures Pairs(a) + Pairs(b) + a + b <= Pairs(a + b + 1)
  {
    if b > 0 {
      PairsSplit(a, b - 1);
    }
  }

  ghost predicate SameTotals(s: seq<Record>, l: nat, r: nat) {
    r <= |s| && forall k :: l <= k < r ==> s[k].annual == s[l].annual
  }

  /** With equal totals a partition leaves the pivot last. */
  lemma PivotLast(s: seq<Record>, t: seq<Record>, l: nat, p: nat, r: nat)
    requires Around(t, l, p, r) && PermutedIn(s, t, l, r) && SameTotals(s, l, r)
    ensures p == r - 1 && SameTotals(t, l, p)
  {
    forall k | l <= k < r
      ensures t[k].annual == s[l].annual
    {
      var i := PermutedKeeps(s, t, l, r, k);
    }
    assert t[r - 1].annual == t[p].annual;
  }

  /** Costs of sorting n records: drawn numbers, swaps and comparisons. */
  ghost predicate CostsInRange(n: nat, drawn: int, swaps: int, comparisons: int) {
    && n / 2 <= drawn && drawn <= swaps <= comparisons + drawn
    && (if n == 0 then drawn == comparisons == 0 else drawn <= n - 1 <= comparisons)
  }

  /** With equal totals all pairs are compared, and each number drawn goes with the only swap of its partition. */
  ghost predicate CostsMost(n: nat, drawn: int, swaps: int, comparisons: int) {
    comparisons == Pairs(n) && drawn == swaps == if n == 0 then 0 else n - 1
  }

  ghost predicate QuickCosts(t: Table, u: Table, l: nat, r: nat) {
    && l <= r
    && CostsInRange(r - l, u.drawn - t.drawn, u.swaps - t.swaps, u.comparisons - t.comparisons)
    && (SameTotals(t.arr, l, r) ==>
         CostsMost(r - l, u.drawn - t.drawn, u.swaps - t.swaps, u.comparisons - t.comparisons))
  }

  lemma QuickCostsTurn(t: Table, s: Split, u: Table, v: Table, l: nat, r: nat)
    ensures l + 2 <= r && Partitions(t, s, l, r - 1) && |u.arr| == |t.arr| ==>
      QuickCosts(s.t, u, l, s.p) && QuickCosts(u, v, s.p + 1, r) ==> QuickCosts(t, v, l, r)
  {
    if l + 2 <= r && Partitions(t, s, l, r - 1) && SameTotals(t.arr, l, r) {
      PivotLast(t.arr, s.t.arr, l, s.p, r);
    }
  }

  /** u is t with the stretch l..r sorted, after no more comparisons than there are pairs in it. */
  ghost predicate QuickSorted(t: Table, u: Table, l: nat, r: nat) {
    && SortedIn(u.arr, l, r) && PermutedIn(t.arr, u.arr, l, r)
    && l <= r && u.comparisons <= t.comparisons + Pairs(r - l)
  }

  lemma QuickTurn(t: Table, s: Split, u: Table, v: Table, l: nat, r: nat)
    ensures r > 0 && Partitions(t, s, l, r - 1) && QuickSorted(s.t, u, l, s.p) && QuickSorted(u, v, s.p + 1, r) ==>
      QuickSorted(t, v, l, r)
  {
    if r > 0 && Partitions(t, s, l, r - 1) && QuickSorted(s.t, u, l, s.p) && QuickSorted(u, v, s.p + 1, r) {
      var p := s.p;
      AroundKept(s.t.arr, u.arr, l, p, r, l, p);
      AroundKept(u.arr, v.arr, l, p, r, p + 1, r);
      SortedKept(u.arr, v.arr, l, p, p + 1, r);
      SortedAround(v.arr, l, p, r);
      PermutedMore(t.arr, s.t.arr, u.arr, v.arr, l, p, r);
      PairsSplit(p - l, r - p - 1);
    }
  }

  lemma SortsNothing(t: Table, l: nat, r: nat)
    requires l <= r <= |t.arr| && r < l + 2
    ensures QuickSorted(t, t, l, r) && QuickCosts(t, t, l, r)
  {}

  /** The recursion on the stretch l..r leads from t to v: a partition, then the part before the pivot, then the part
      behind it. */
  ghost predicate QuickRun(t: Table, v: Table, l: nat, r: nat)
    decreases r - l, 1
  {
    if r < l + 2 then l <= r <= |t.arr| && v == t
    else exists s: Split, u: Table :: Levels(t, s, u, v, l, r)
  }

  ghost predicate Levels(t: Table, s: Split, u: Table, v: Table, l: nat, r: nat)
    requires l + 2 <= r
    decreases r - l, 0
  {
    Partitions(t, s, l, r - 1) && QuickRun(s.t, u, l, s.p) && QuickRun(u, v, s.p + 1, r)
  }

  /** The recursion sorts the stretch it is given. */
  lemma {:induction false} QuickRunSorts(t: Table, v: Table, l: nat, r: nat)
    requires QuickRun(t, v, l, r)
    ensures QuickSorted(t, v, l, r)
    decreases r - l
  {
    if r < l + 2 {
      SortsNothing(t, l, r);
    } else {
      var s: Split, u: Table :| Levels(t, s, u, v, l, r);
      QuickRunSorts(s.t, u, l, s.p);
      QuickRunSorts(u, v, s.p + 1, r);
      QuickTurn(t, s, u, v, l, r);
    }
  }

  /** What the recursion costs. */
  lemma {:induction false} QuickRunCosts(t: Table, v: Table, l: nat, r: nat)
    requires QuickRun(t, v, l, r)
    ensures QuickCosts(t, v, l, r)
    decreases r - l
  {
    if r < l + 2 {
      SortsNothing(t, l, r);
    } else {
      var s: Split, u: Table :| Levels(t, s, u, v, l, r);
      QuickRunCosts(s.t, u, l, s.p);
      QuickRunCosts(u, v, s.p + 1, r);
      QuickRunSorts(s.t, u, l, s.p);
      QuickCostsTurn(t, s, u, v, l, r);
    }
  }

  // ----- The range query -----

  method LowerBound(arr: seq<Record>, val: real) returns (l: nat)
    requires Sorted(arr)
    ensures l <= |arr| && forall k :: 0 <= k < |arr| ==> (k < l <==> arr[k].annual < val)
  {
    l := 0;
    var r := |arr|;
    while l < r
      invariant l <= r <= |arr|
      invariant forall k :: 0 <= k < l ==> arr[k].annual < val
      invariant forall k :: r <= k < |arr| ==> arr[k].annual >= val
    {
      var mid := (l + r) / 2;
      if arr[mid].annual < val {
        l := mid + 1;
      } else {
        r := mid;
      }
    }
  }

  method UpperBound(arr: seq<Record>, val: real) returns (l: nat)
    requires Sorted(arr)
    ensures l <= |arr| && forall k :: 0 <= k < |arr| ==> (k < l <==> arr[k].annual <= val)
  {
    l := 0;
    var r := |arr|;
    while l < r
      invariant l <= r <= |arr|
      invariant forall k :: 0 <= k < l ==> arr[k].annual <= val
      invariant forall k :: r <= k < |arr| ==> arr[k].annual > val
    {
      var mid := (l + r) / 2;
      if arr[mid].annual <= val {
        l := mid + 1;
      } else {
        r := mid;
      }
    }
  }

  /** The query prints the records l..r: exactly those within the bounds, none when low is above high. */
  method RangeQuery(arr: seq<Record>, low: real, high: real) returns (l: nat, r: nat)
    requires Sorted(arr)
    ensures r <= |arr| && forall k :: 0 <= k < |arr| ==> (l <= k < r <==> low <= arr[k].annual <= high)
  {
    l := LowerBound(arr, low);
    r := UpperBound(arr, high);
  }
}
