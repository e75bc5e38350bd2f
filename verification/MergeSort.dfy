/** The instrumented merge sort of the rainfall records: stable, with an exact count of record moves. */
module MergeSort {
  import opened BitStreams

  /** One year's rainfall; the sorts compare annual totals. */
  datatype Record = Record(year: int, monthly: seq<real>, annual: real)

  ghost predicate Sorted(s: seq<Record>) {
    forall i, j :: 0 <= i < j < |s| ==> s[i].annual <= s[j].annual
  }

  /** The records with a given total, in order. */
  ghost function Only(s: seq<Record>, key: real): seq<Record> {
    if s == [] then [] else (if s[0].annual == key then [s[0]] else []) + Only(s[1..], key)
  }

  // ----- The specification -----

  /** Merging prefers the left side on equal totals. */
  ghost function Merged(a: seq<Record>, b: seq<Record>): (m: seq<Record>)
    ensures |m| == |a| + |b|
  {
    if a == [] then b
    else if b == [] then a
    else if a[0].annual <= b[0].annual then [a[0]] + Merged(a[1..], b)
    else [b[0]] + Merged(a, b[1..])
  }

  /** Comparisons that merging makes: one for each record placed while both sides last. */
  ghost function MergeComparisons(a: seq<Record>, b: seq<Record>): nat {
    if a == [] || b == [] then 0
    else if a[0].annual <= b[0].annual then 1 + MergeComparisons(a[1..], b)
    else 1 + MergeComparisons(a, b[1..])
  }

  /** The left half gets the middle record. */
  ghost function MergeSorted(s: seq<Record>): (r: seq<Record>)
    ensures |r| == |s|
  {
    if |s| < 2 then s else
      var h := (|s| + 1) / 2;
      Merged(MergeSorted(s[..h]), MergeSorted(s[h..]))
  }

  ghost function SortComparisons(s: seq<Record>): nat {
    if |s| < 2 then 0 else
      var h := (|s| + 1) / 2;
      SortComparisons(s[..h]) + SortComparisons(s[h..]) + MergeComparisons(MergeSorted(s[..h]), MergeSorted(s[h..]))
  }

  /** Records placed in all merges of n records. */
  ghost function Placed(n: nat): nat {
    if n < 2 then 0 else Placed((n + 1) / 2) + Placed(n / 2) + n
  }

  // ----- Sorted and stable -----

  ghost predicate AtLeast(s: seq<Record>, key: real) {
    forall i :: 0 <= i < |s| ==> key <= s[i].annual
  }

  lemma {:induction false} MergedAtLeast(a: seq<Record>, b: seq<Record>, key: real)
    requires AtLeast(a, key) && AtLeast(b, key)
    ensures AtLeast(Merged(a, b), key)
  {
    if a != [] && b != [] {
      if a[0].annual <= b[0].annual {
        MergedAtLeast(a[1..], b, key);
      } else {
        MergedAtLeast(a, b[1..], key);
      }
    }
  }

  lemma {:induction false} MergedSorted(a: seq<Record>, b: seq<Record>)
    requires Sorted(a) && Sorted(b)
    ensures Sorted(Merged(a, b))
  {
    if a != [] && b != [] {
      if a[0].annual <= b[0].annual {
        MergedSorted(a[1..], b);
        MergedAtLeast(a[1..], b, a[0].annual);
      } else {
        MergedSorted(a, b[1..]);
        MergedAtLeast(a, b[1..], b[0].annual);
      }
    }
  }

  lemma {:induction false} OnlyConcat(a: seq<Record>, b: seq<Record>, key: real)
    ensures Only(a + b, key) == Only(a, key) + Only(b, key)
  {
    if a == [] {
      assert a + b == b;
    } else {
      OnlyConcat(a[1..], b, key);
      assert a + b == [a[0]] + (a[1..] + b);
      OnlyHead(a[0], a[1..] + b, key);
      Regroup(if a[0].annual == key then [a[0]] else [], Only(a[1..], key), Only(b, key));
    }
  }

  lemma {:induction false} OnlyNone(a: seq<Record>, key: real)
    requires forall i :: 0 <= i < |a| ==> a[i].annual != key
    ensures Only(a, key) == []
  {
    if a != [] {
      OnlyNone(a[1..], key);
    }
  }

  lemma OnlyHead(x: Record, rest: seq<Record>, key: real)
    ensures Only([x] + rest, key) == (if x.annual == key then [x] else []) + Only(rest, key)
  {
    assert ([x] + rest)[1..] == rest;
  }

  lemma StableLeft(a: seq<Record>, b: seq<Record>, m: seq<Record>, key: real)
    requires a != [] && Only(m, key) == Only(a[1..], key) + Only(b, key)
    ensures Only([a[0]] + m, key) == Only(a, key) + Only(b, key)
  {
    OnlyHead(a[0], m, key);
    Regroup(if a[0].annual == key then [a[0]] else [], Only(a[1..], key), Only(b, key));
  }

  lemma StableRight(a: seq<Record>, b: seq<Record>, m: seq<Record>, key: real)
    requires b != [] && Only(m, key) == Only(a, key) + Only(b[1..], key)
    requires b[0].annual == key ==> Only(a, key) == []
    ensures Only([b[0]] + m, key) == Only(a, key) + Only(b, key)
  {
    OnlyHead(b[0], m, key);
    assert b[0].annual != key ==> Only([b[0]] + m, key) == Only(m, key) && Only(b, key) == Only(b[1..], key);
  }

  /** Equal totals stay in order: all from the left side first. */
  lemma {:induction false} MergedStable(a: seq<Record>, b: seq<Record>, key: real)
    requires Sorted(a) && Sorted(b)
    ensures Only(Merged(a, b), key) == Only(a, key) + Only(b, key)
  {
    if a == [] || b == [] {
      assert Only(a, key) + [] == Only(a, key);
    } else if a[0].annual <= b[0].annual {
      MergedStable(a[1..], b, key);
      StableLeft(a, b, Merged(a[1..], b), key);
    } else {
      MergedStable(a, b[1..], key);
      if b[0].annual == key {
        OnlyNone(a, key);
      }
      StableRight(a, b, Merged(a, b[1..]), key);
    }
  }

  /** Sorting is stable, and so loses and invents nothing. */
  lemma {:induction false} SortIsStable(s: seq<Record>, key: real)
    ensures Sorted(MergeSorted(s)) && Only(MergeSorted(s), key) == Only(s, key)
  {
    if |s| >= 2 {
      var h := (|s| + 1) / 2;
      SortIsStable(s[..h], key);
      SortIsStable(s[h..], key);
      MergedSorted(MergeSorted(s[..h]), MergeSorted(s[h..]));
      MergedStable(MergeSorted(s[..h]), MergeSorted(s[h..]), key);
      OnlyConcat(s[..h], s[h..], key);
      assert s == s[..h] + s[h..];
    }
  }

  // ----- Exact costs -----

  /** k is the ceiling of the binary logarithm of n. */
  ghost predicate IsCeilLog(n: nat, k: nat) {
    n >= 1 && n <= Pow2(k) && (k == 0 || Pow2(k - 1) < n)
  }

  lemma SmallPowers(k: nat)
    ensures Pow2(0) == 1 && Pow2(1) == 2
    ensures k >= 2 ==> Pow2(k - 1) >= 2
  {
    assert Pow2(1) == 2 * Pow2(0);
  }

  /** n * k - 2^k + n moves, also at the lower end of the range of k. */
  lemma {:induction false} PlacedInRange(n: nat, k: nat)
    requires n >= 1 && n <= Pow2(k) && (k == 0 || Pow2(k - 1) <= n)
    ensures Placed(n) == n * k - Pow2(k) + n
    decreases n
  {
    SmallPowers(k);
    if n >= 2 {
      PlacedInRange((n + 1) / 2, k - 1);
      PlacedInRange(n / 2, k - 1);
      Halves((n + 1) / 2, n / 2, k);
    }
  }

  lemma Halves(h: int, l: int, k: int)
    ensures h * (k - 1) + l * (k - 1) == (h + l) * k - (h + l)
  {}

  lemma {:induction false} MergeComparisonsBound(a: seq<Record>, b: seq<Record>)
    requires a != [] && b != []
    ensures MergeComparisons(a, b) <= |a| + |b| - 1
  {
    if a[0].annual <= b[0].annual {
      if |a| > 1 {
        MergeComparisonsBound(a[1..], b);
      }
    } else if |b| > 1 {
      MergeComparisonsBound(a, b[1..]);
    }
  }

  /** How many records have a total up to key, or below it. */
  ghost function UpToKey(s: seq<Record>, key: real): nat {
    if s == [] then 0 else (if s[0].annual <= key then 1 else 0) + UpToKey(s[1..], key)
  }

  ghost function BelowKey(s: seq<Record>, key: real): nat {
    if s == [] then 0 else (if s[0].annual < key then 1 else 0) + BelowKey(s[1..], key)
  }

  lemma {:induction false} NoneUpTo(s: seq<Record>, key: real)
    ensures (forall i :: 0 <= i < |s| ==> s[i].annual > key) ==> UpToKey(s, key) == 0
    ensures (forall i :: 0 <= i < |s| ==> s[i].annual >= key) ==> BelowKey(s, key) == 0
  {
    if s != [] {
      NoneUpTo(s[1..], key);
    }
  }

  /** A merge compares once for each record that is placed before the other side is used up. */
  lemma {:induction false} MergeComparisonsExact(a: seq<Record>, b: seq<Record>)
    requires a != [] && b != [] && Sorted(a) && Sorted(b)
    ensures MergeComparisons(a, b) == UpToKey(a, b[|b| - 1].annual) + BelowKey(b, a[|a| - 1].annual)
  {
    assert a[0].annual <= a[|a| - 1].annual && b[0].annual <= b[|b| - 1].annual;
    if a[0].annual <= b[0].annual {
      if |a| > 1 {
        MergeComparisonsExact(a[1..], b);
      } else {
        NoneUpTo(b, a[0].annual);
      }
    } else if |b| > 1 {
      MergeComparisonsExact(a, b[1..]);
    } else {
      NoneUpTo(a, b[0].annual);
    }
  }

  /** No sort of n records makes fewer than n - 1 comparisons. */
  lemma {:induction false} ComparisonsAtLeast(s: seq<Record>)
    ensures s != [] ==> |s| - 1 <= SortComparisons(s)
    decreases |s|
  {
    if |s| >= 2 {
      var h := (|s| + 1) / 2;
      ComparisonsAtLeast(s[..h]);
      ComparisonsAtLeast(s[h..]);
    }
  }

  ghost function MostComparisons(n: nat): nat {
    if n < 2 then 0 else MostComparisons((n + 1) / 2) + MostComparisons(n / 2) + n - 1
  }

  lemma {:induction false} ComparisonsBound(s: seq<Record>)
    ensures SortComparisons(s) <= MostComparisons(|s|)
    decreases |s|
  {
    if |s| >= 2 {
      var h := (|s| + 1) / 2;
      var a, b := s[..h], s[h..];
      ComparisonsBound(a);
      ComparisonsBound(b);
      MergeComparisonsBound(MergeSorted(a), MergeSorted(b));
      assert |a| == (|s| + 1) / 2 && |b| == |s| / 2;
    }
  }

  lemma {:induction false} MostIsPlaced(n: nat)
    requires n >= 1
    ensures MostComparisons(n) + n == Placed(n) + 1
  {
    if n >= 2 {
      MostIsPlaced((n + 1) / 2);
      MostIsPlaced(n / 2);
    }
  }

  /** Cost of sorting n >= 1 records: n * k - 2^k + n placements and at most n * k - 2^k + 1 comparisons,
      where k is the ceiling of log2 n. */
  lemma SortCosts(s: seq<Record>, k: nat)
    requires IsCeilLog(|s|, k)
    ensures Placed(|s|) == |s| * k - Pow2(k) + |s|
    ensures SortComparisons(s) <= |s| * k - Pow2(k) + 1
  {
    PlacedInRange(|s|, k);
    ComparisonsBound(s);
    MostIsPlaced(|s|);
  }

  /** Sorted, with the records of each total in their old order. */
  ghost predicate IsStableSort(s: seq<Record>, t: seq<Record>) {
    Sorted(t) && forall key :: Only(t, key) == Only(s, key)
  }

  /** Moves and comparisons of sorting n records, in closed form; every record is moved to the scratch array and
      back. */
  ghost predicate CostsAre(n: nat, swaps: int, comparisons: int) {
    && (if n == 0 then swaps == comparisons == 0 else n - 1 <= comparisons)
    && forall k: nat :: IsCeilLog(n, k) ==>
         swaps == 2 * (n * k - Pow2(k) + n) && comparisons <= n * k - Pow2(k) + 1
  }

  lemma SortSummary(s: seq<Record>)
    ensures IsStableSort(s, MergeSorted(s))
    ensures CostsAre(|s|, 2 * Placed(|s|), SortComparisons(s))
  {
    forall key
      ensures Sorted(MergeSorted(s)) && Only(MergeSorted(s), key) == Only(s, key)
    {
      SortIsStable(s, key);
    }
    assert Sorted(MergeSorted(s)) by {
      SortIsStable(s, 0.0);
    }
    ComparisonsAtLeast(s);
    forall k: nat | IsCeilLog(|s|, k)
      ensures 2 * Placed(|s|) == 2 * (|s| * k - Pow2(k) + |s|) && SortComparisons(s) <= |s| * k - Pow2(k) + 1
    {
      SortCosts(s, k);
    }
  }

  // ----- The program -----

  class MergeSorter {
    var mergeComparisons: nat
    var mergeSwaps: nat

    constructor ()
      ensures mergeComparisons == mergeSwaps == 0
    {
      mergeComparisons, mergeSwaps := 0, 0;
    }

    /** Copies a run of records, counting each. */
    method CopyRun(src: array<Record>, from: nat, to: nat, dst: array<Record>, at: nat)
      requires from <= to <= src.Length && at + (to - from) <= dst.Length && src != dst
      modifies this`mergeSwaps, dst
      ensures dst[..] == Copied(old(dst[..]), at, src[..], from, to)
      ensures mergeSwaps == old(mergeSwaps) + (to - from)
    {
      var i := from;
      while i < to
        invariant from <= i <= to && |dst[..]| == dst.Length
        invariant dst[..] == Copied(old(dst[..]), at, src[..], from, i)
        invariant mergeSwaps == old(mergeSwaps) + (i - from)
      {
        dst[at + (i - from)] := src[i];
        i := i + 1;
        mergeSwaps := mergeSwaps + 1;
      }
    }

    /** The comparing loop of the merge: stops when one side is used up. */
    method MergeLoop(arr: array<Record>, left: nat, mid: nat, right: nat, temp: array<Record>) returns (i: nat, j: nat)
      requires left <= mid < right < arr.Length <= temp.Length && arr != temp
      modifies this, temp
      ensures left <= i <= mid + 1 <= j <= right + 1
      ensures Cursor(temp[..], i, j) == MergeRun(arr[..], mid + 1, right + 1, Cursor(old(temp[..]), left, mid + 1))
      ensures mergeSwaps == old(mergeSwaps) + (i + j - mid - 1 - left)
      ensures mergeComparisons == old(mergeComparisons) + (i + j - mid - 1 - left)
    {
      var k := left;
      i, j := left, mid + 1;
      ghost var s := arr[..];
      ghost var c := Cursor(temp[..], i, j);
      while i <= mid && j <= right
        invariant left <= i <= mid + 1 <= j <= right + 1 && k == i + j - mid - 1
        invariant arr[..] == s && Cursor(temp[..], i, j) == c
        invariant MergeRun(s, mid + 1, right + 1, c)
          == MergeRun(s, mid + 1, right + 1, Cursor(old(temp[..]), left, mid + 1))
        invariant mergeSwaps == old(mergeSwaps) + (k - left)
        invariant mergeComparisons == old(mergeComparisons) + (k - left)
      {
        c := MergeStep(s, mid + 1, c);
        mergeComparisons := mergeComparisons + 1;
        if arr[i].annual <= arr[j].annual {
          temp[k] := arr[i];
          i := i + 1;
        } else {
          temp[k] := arr[j];
          j := j + 1;
        }
        assert temp[..] == c.temp;
        k := k + 1;
        mergeSwaps := mergeSwaps + 1;
      }
    }

    ghost function Now(arr: array<Record>, temp: array<Record>): Work
      reads this, arr, temp
    {
      Work(arr[..], temp[..], mergeComparisons, mergeSwaps)
    }

    /** Merges the two halves through temp and copies the result back. */
    method Merge(arr: array<Record>, left: nat, mid: nat, right: nat, temp: array<Record>)
      requires left <= mid < right < arr.Length <= temp.Length && arr != temp
      modifies this, arr, temp
      ensures Now(arr, temp) == MergeWork(old(Now(arr, temp)), left, mid + 1, right + 1)
    {
      ghost var s := arr[..];
      var i, j := MergeLoop(arr, left, mid, right, temp);
      var k := i + j - mid - 1;
      CopyRun(arr, i, mid + 1, temp, k);
      k := k + (mid + 1 - i);
      CopyRun(arr, j, right + 1, temp, k);
      assert arr[..] == s;
      CopyRun(temp, left, right + 1, arr, left);
    }

    /** Sorts arr[left..right]. */
    method MergeSortRec(arr: array<Record>, left: nat, right: int, temp: array<Record>)
      requires left <= right + 1 && right < arr.Length <= temp.Length && arr != temp
      modifies this, arr, temp
      ensures Now(arr, temp) == SortWork(old(Now(arr, temp)), left, right + 1)
      decreases right + 1 - left
    {
      if left < right {
        var mid := (left + right) / 2;
        MergeSortRec(arr, left, mid, temp);
        MergeSortRec(arr, mid + 1, right, temp);
        ghost var v := Now(arr, temp);
        Merge(arr, left, mid, right, temp);
        assert Now(arr, temp) == MergeWork(v, left, mid + 1, right + 1);
      }
    }

    /** Sorts the whole array: stable, with the counters raised by the exact costs. */
    method MergeSort(arr: array<Record>)
      modifies this, arr
      ensures arr[..] == MergeSorted(old(arr[..])) && IsStableSort(old(arr[..]), arr[..])
      ensures mergeSwaps == old(mergeSwaps) + 2 * Placed(arr.Length)
      ensures mergeComparisons == old(mergeComparisons) + SortComparisons(old(arr[..]))
      ensures CostsAre(arr.Length, mergeSwaps - old(mergeSwaps), mergeComparisons - old(mergeComparisons))
    {
      var temp := new Record[arr.Length];
      WholeSorted(Now(arr, temp));
      SortSummary(arr[..]);
      MergeSortRec(arr, 0, arr.Length - 1, temp);
    }
  }

  /** What the sort works on: the array, the scratch array and the two counters. */
  datatype Work = Work(arr: seq<Record>, temp: seq<Record>, comparisons: nat, swaps: nat)

  /** The state of the comparing loop: the scratch array and the next record on either side. */
  datatype Cursor = Cursor(temp: seq<Record>, i: nat, j: nat)

  /** The comparing loop run to its end, on the sides s[c.i..m] and s[c.j..r]. */
  ghost function MergeRun(s: seq<Record>, m: nat, r: nat, c: Cursor): (e: Cursor)
    requires c.i <= m <= c.j <= r <= |s| <= |c.temp|
    ensures c.i <= e.i <= m
    ensures c.j <= e.j <= r
    ensures (e.i == m || e.j == r)
    ensures |e.temp| == |c.temp|
    decreases m - c.i + r - c.j
  {
    if c.i == m || c.j == r then c else MergeRun(s, m, r, MergeStep(s, m, c))
  }

  /** One turn of the loop. */
  ghost function MergeStep(s: seq<Record>, m: nat, c: Cursor): Cursor
    requires c.i < m <= c.j < |s| <= |c.temp|
  {
    if s[c.i].annual <= s[c.j].annual then Cursor(c.temp[c.i + c.j - m := s[c.i]], c.i + 1, c.j)
    else Cursor(c.temp[c.i + c.j - m := s[c.j]], c.i, c.j + 1)
  }

  /** What the loop is producing: the records placed since index left, then the merge of both rests. */
  ghost function Aim(s: seq<Record>, left: nat, m: nat, r: nat, c: Cursor): seq<Record>
    requires left <= c.i <= m <= c.j <= r <= |s| <= |c.temp|
  {
    c.temp[left..c.i + c.j - m] + Merged(s[c.i..m], s[c.j..r])
  }

  ghost function Comparing(s: seq<Record>, m: nat, r: nat, c: Cursor): nat
    requires c.i <= m <= c.j <= r <= |s|
  {
    MergeComparisons(s[c.i..m], s[c.j..r])
  }

  lemma SliceTail(s: seq<Record>, l: nat, r: nat)
    requires l < r <= |s|
    ensures s[l..r][0] == s[l] && s[l..r][1..] == s[l + 1..r]
  {}

  /** The head of a merge, with the tails given. */
  lemma MergeHead(a: seq<Record>, b: seq<Record>, a': seq<Record>, b': seq<Record>)
    requires a != [] && b != [] && a' == a[1..] && b' == b[1..]
    ensures a[0].annual <= b[0].annual ==>
      Merged(a, b) == [a[0]] + Merged(a', b) && MergeComparisons(a, b) == 1 + MergeComparisons(a', b)
    ensures a[0].annual > b[0].annual ==>
      Merged(a, b) == [b[0]] + Merged(a, b') && MergeComparisons(a, b) == 1 + MergeComparisons(a, b')
  {}

  lemma MergeRest(s: seq<Record>, m: nat, r: nat, c: Cursor)
    requires c.i < m <= c.j < r <= |s|
    ensures s[c.i].annual <= s[c.j].annual ==>
      && Merged(s[c.i..m], s[c.j..r]) == [s[c.i]] + Merged(s[c.i + 1..m], s[c.j..r])
      && MergeComparisons(s[c.i..m], s[c.j..r]) == 1 + MergeComparisons(s[c.i + 1..m], s[c.j..r])
    ensures s[c.i].annual > s[c.j].annual ==>
      && Merged(s[c.i..m], s[c.j..r]) == [s[c.j]] + Merged(s[c.i..m], s[c.j + 1..r])
      && MergeComparisons(s[c.i..m], s[c.j..r]) == 1 + MergeComparisons(s[c.i..m], s[c.j + 1..r])
  {
    SliceTail(s, c.i, m);
    SliceTail(s, c.j, r);
    MergeHead(s[c.i..m], s[c.j..r], s[c.i + 1..m], s[c.j + 1..r]);
  }

  lemma MergeStepKeeps(s: seq<Record>, left: nat, m: nat, r: nat, c: Cursor)
    requires left <= c.i < m <= c.j < r <= |s| <= |c.temp|
    ensures Aim(s, left, m, r, MergeStep(s, m, c)) == Aim(s, left, m, r, c)
  {
    MergeRest(s, m, r, c);
    var k := c.i + c.j - m;
    if s[c.i].annual <= s[c.j].annual {
      PlaceOne(c.temp, left, k, s[c.i], Merged(s[c.i + 1..m], s[c.j..r]));
    } else {
      PlaceOne(c.temp, left, k, s[c.j], Merged(s[c.i..m], s[c.j + 1..r]));
    }
  }

  lemma MergeStepCompares(s: seq<Record>, m: nat, r: nat, c: Cursor)
    requires c.i < m <= c.j < r <= |s| <= |c.temp|
    ensures Comparing(s, m, r, c) == 1 + Comparing(s, m, r, MergeStep(s, m, c))
  {
    MergeRest(s, m, r, c);
  }

  /** When the loop ends it has kept its aim, and made one comparison for each record placed. */
  lemma {:induction false} MergeRunPlaces(s: seq<Record>, left: nat, m: nat, r: nat, c: Cursor)
    requires left <= c.i <= m <= c.j <= r <= |s| <= |c.temp|
    ensures var e := MergeRun(s, m, r, c);
      && Aim(s, left, m, r, e) == Aim(s, left, m, r, c)
      && e.i + e.j - c.i - c.j == Comparing(s, m, r, c)
    decreases m - c.i + r - c.j
  {
    if c.i < m && c.j < r {
      MergeStepKeeps(s, left, m, r, c);
      MergeStepCompares(s, m, r, c);
      MergeRunPlaces(s, left, m, r, MergeStep(s, m, c));
    }
  }

  lemma PlaceOne(t: seq<Record>, left: nat, k: nat, x: Record, rest: seq<Record>)
    requires left <= k < |t|
    ensures t[k := x][left..k + 1] + rest == t[left..k] + ([x] + rest)
  {
    assert t[k := x][left..k + 1] == t[left..k] + [x];
  }

  /** d with s[lo..hi] copied into it from index at on. */
  ghost function Copied(d: seq<Record>, at: nat, s: seq<Record>, lo: nat, hi: nat): (c: seq<Record>)
    requires lo <= hi <= |s| && at + (hi - lo) <= |d|
    ensures |c| == |d|
    decreases hi - lo
  {
    if lo == hi then d else Copied(d, at, s, lo, hi - 1)[at + (hi - 1 - lo) := s[hi - 1]]
  }

  lemma {:induction false} CopiedIsOverlay(d: seq<Record>, at: nat, s: seq<Record>, lo: nat, hi: nat)
    requires lo <= hi <= |s| && at + (hi - lo) <= |d|
    ensures Copied(d, at, s, lo, hi) == Overlay(d, at, s[lo..hi])
    decreases hi - lo
  {
    if hi > lo {
      CopiedIsOverlay(d, at, s, lo, hi - 1);
      OverlayNext(d, at, s[lo..hi - 1], s[hi - 1]);
      assert s[lo..hi] == s[lo..hi - 1] + [s[hi - 1]];
    }
  }

  /** The scratch array after the rest of both sides has been copied. */
  ghost function Filled(s: seq<Record>, m: nat, r: nat, e: Cursor): (t: seq<Record>)
    requires e.i <= m <= e.j <= r <= |s| <= |e.temp|
    ensures |t| == |e.temp|
  {
    Copied(Copied(e.temp, e.i + e.j - m, s, e.i, m), e.j, s, e.j, r)
  }

  lemma FilledIsAim(s: seq<Record>, left: nat, m: nat, r: nat, e: Cursor)
    requires left <= e.i <= m <= e.j <= r <= |s| <= |e.temp| && (e.i == m || e.j == r)
    ensures Filled(s, m, r, e)[left..r] == Aim(s, left, m, r, e)
  {
    var k, a, b := e.i + e.j - m, s[e.i..m], s[e.j..r];
    CopiedIsOverlay(e.temp, k, s, e.i, m);
    CopiedIsOverlay(Overlay(e.temp, k, a), e.j, s, e.j, r);
    OverlaySlice(e.temp, left, k, a);
    OverlaySlice(Overlay(e.temp, k, a), left, k + |a|, b);
    Regroup(e.temp[left..k], a, b);
    assert Merged(a, b) == a + b;
  }

  /** What a merge of the slices l..m and m..r does. */
  ghost function MergeWork(w: Work, l: nat, m: nat, r: nat): (v: Work)
    requires l <= m <= r <= |w.arr| <= |w.temp|
    ensures |v.arr| == |w.arr| && |v.temp| == |w.temp|
  {
    var e := MergeRun(w.arr, m, r, Cursor(w.temp, l, m));
    var t := Filled(w.arr, m, r, e);
    Work(Copied(w.arr, l, t, l, r), t, w.comparisons + (e.i + e.j - l - m), w.swaps + 2 * (r - l))
  }

  /** What the recursion on the slice l..r does. */
  ghost function SortWork(w: Work, l: nat, r: nat): (v: Work)
    requires l <= r <= |w.arr| <= |w.temp|
    ensures |v.arr| == |w.arr| && |v.temp| == |w.temp|
    decreases r - l, 1
  {
    if r < l + 2 then w else SortParts(w, l, l + (r - l + 1) / 2, r)
  }

  ghost function SortParts(w: Work, l: nat, m: nat, r: nat): (v: Work)
    requires l < m < r <= |w.arr| <= |w.temp|
    ensures |v.arr| == |w.arr| && |v.temp| == |w.temp|
    decreases r - l, 0
  {
    MergeWork(SortWork(SortWork(w, l, m), m, r), l, m, r)
  }

  /** s and t differ at most in the stretch l..r. */
  ghost predicate OnlyIn(s: seq<Record>, t: seq<Record>, l: nat, r: nat) {
    |s| == |t| && forall k :: 0 <= k < |s| && !(l <= k < r) ==> t[k] == s[k]
  }

  lemma SliceOutside(s: seq<Record>, t: seq<Record>, l: nat, r: nat, lo: nat, hi: nat)
    requires OnlyIn(s, t, l, r) && lo <= hi <= |s| && (hi <= l || r <= lo)
    ensures t[lo..hi] == s[lo..hi]
  {}

  lemma OnlyInMore(s: seq<Record>, t: seq<Record>, u: seq<Record>, v: seq<Record>, l: nat, m: nat, r: nat)
    requires OnlyIn(s, t, l, m) && OnlyIn(t, u, m, r) && OnlyIn(u, v, l, r) && l <= m <= r
    ensures OnlyIn(s, v, l, r)
  {}

  lemma {:induction false} CopiedRange(d: seq<Record>, l: nat, s: seq<Record>, r: nat)
    requires l <= r <= |s| && r <= |d|
    ensures OnlyIn(d, Copied(d, l, s, l, r), l, r) && Copied(d, l, s, l, r)[l..r] == s[l..r]
  {
    CopiedIsOverlay(d, l, s, l, r);
  }

  lemma AimAtStart(s: seq<Record>, m: nat, r: nat, c: Cursor)
    requires c.i <= m == c.j <= r <= |s| <= |c.temp|
    ensures Aim(s, c.i, m, r, c) == Merged(s[c.i..m], s[m..r])
  {
    assert c.temp[c.i..c.i] == [];
  }

  ghost predicate Merges(w: Work, v: Work, l: nat, m: nat, r: nat)
    requires l <= m <= r <= |w.arr|
  {
    && OnlyIn(w.arr, v.arr, l, r) && v.arr[l..r] == Merged(w.arr[l..m], w.arr[m..r])
    && v.comparisons == w.comparisons + MergeComparisons(w.arr[l..m], w.arr[m..r])
    && v.swaps == w.swaps + 2 * (r - l)
  }

  /** A merge of the slices l..m and m..r, whatever was in the scratch array. */
  lemma MergeWorkMerges(w: Work, l: nat, m: nat, r: nat)
    requires l <= m <= r <= |w.arr| <= |w.temp|
    ensures Merges(w, MergeWork(w, l, m, r), l, m, r)
  {
    var c := Cursor(w.temp, l, m);
    var e := MergeRun(w.arr, m, r, c);
    MergeRunPlaces(w.arr, l, m, r, c);
    FilledIsAim(w.arr, l, m, r, e);
    AimAtStart(w.arr, m, r, c);
    CopiedRange(w.arr, l, Filled(w.arr, m, r, e), r);
  }

  lemma MergeSortedHalves(s: seq<Record>, l: nat, m: nat, r: nat)
    requires l + 2 <= r <= |s| && m == l + (r - l + 1) / 2
    ensures MergeSorted(s[l..r]) == Merged(MergeSorted(s[l..m]), MergeSorted(s[m..r]))
    ensures SortComparisons(s[l..r]) == SortComparisons(s[l..m]) + SortComparisons(s[m..r])
      + MergeComparisons(MergeSorted(s[l..m]), MergeSorted(s[m..r]))
  {
    SliceHalves(s, l, m, r, (r - l + 1) / 2);
    SortedHalves(s[l..r], s[l..m], s[m..r]);
  }

  lemma SliceHalves(s: seq<Record>, l: nat, m: nat, r: nat, h: nat)
    requires l <= m <= r <= |s| && h == m - l
    ensures s[l..r][..h] == s[l..m] && s[l..r][h..] == s[m..r]
  {}

  lemma SortedHalves(w: seq<Record>, x: seq<Record>, y: seq<Record>)
    requires |w| >= 2 && x == w[..(|w| + 1) / 2] && y == w[(|w| + 1) / 2..]
    ensures MergeSorted(w) == Merged(MergeSorted(x), MergeSorted(y))
    ensures SortComparisons(w)
      == SortComparisons(x) + SortComparisons(y) + MergeComparisons(MergeSorted(x), MergeSorted(y))
  {}

  /** v is w with the slice l..r sorted, and the cost of sorting that slice alone added. */
  ghost predicate Sorts(w: Work, v: Work, l: nat, r: nat) {
    l <= r <= |w.arr| && SortsArray(w.arr, v.arr, l, r) && SortsCost(w, v, l, r)
  }

  ghost predicate SortsArray(s: seq<Record>, t: seq<Record>, l: nat, r: nat)
    requires l <= r <= |s|
  {
    OnlyIn(s, t, l, r) && t[l..r] == MergeSorted(s[l..r])
  }

  ghost predicate SortsCost(w: Work, v: Work, l: nat, r: nat)
    requires l <= r <= |w.arr|
  {
    v.comparisons == w.comparisons + SortComparisons(w.arr[l..r]) && SortsMoves(w, v, r - l)
  }

  ghost predicate SortsMoves(w: Work, v: Work, n: nat) {
    v.swaps == w.swaps + 2 * Placed(n)
  }

  lemma SortArrayTurn(s: seq<Record>, t: seq<Record>, u: seq<Record>, v: seq<Record>, l: nat, m: nat, r: nat)
    requires l + 2 <= r <= |s| && m == l + (r - l + 1) / 2
    requires SortsArray(s, t, l, m) && SortsArray(t, u, m, r)
    requires OnlyIn(u, v, l, r) && v[l..r] == Merged(u[l..m], u[m..r])
    ensures SortsArray(s, v, l, r)
    ensures u[l..m] == MergeSorted(s[l..m])
    ensures u[m..r] == MergeSorted(s[m..r])
    ensures t[m..r] == s[m..r]
  {
    SliceOutside(s, t, l, m, m, r);
    SliceOutside(t, u, m, r, l, m);
    OnlyInMore(s, t, u, v, l, m, r);
    MergeSortedHalves(s, l, m, r);
  }

  lemma SortMovesTurn(w: Work, u: Work, v: Work, x: Work, l: nat, m: nat, r: nat)
    requires l + 2 <= r && m == l + (r - l + 1) / 2
    requires SortsMoves(w, u, m - l) && SortsMoves(u, v, r - m) && x.swaps == v.swaps + 2 * (r - l)
    ensures SortsMoves(w, x, r - l)
  {
    PlacedHalves(r - l, m - l);
  }

  lemma SortComparesTurn(s: seq<Record>, t: seq<Record>, l: nat, m: nat, r: nat)
    requires l + 2 <= r <= |s| == |t| && m == l + (r - l + 1) / 2 && t[m..r] == s[m..r]
    ensures SortComparisons(s[l..r]) == SortComparisons(s[l..m]) + SortComparisons(t[m..r])
      + MergeComparisons(MergeSorted(s[l..m]), MergeSorted(s[m..r]))
  {
    MergeSortedHalves(s, l, m, r);
  }

  lemma SortTurn(w: Work, u: Work, v: Work, x: Work, l: nat, m: nat, r: nat)
    requires l + 2 <= r <= |w.arr| && m == l + (r - l + 1) / 2
    requires Sorts(w, u, l, m) && Sorts(u, v, m, r)
    requires Merges(v, x, l, m, r)
    ensures Sorts(w, x, l, r)
  {
    SortArrayTurn(w.arr, u.arr, v.arr, x.arr, l, m, r);
    SortComparesTurn(w.arr, u.arr, l, m, r);
    SortMovesTurn(w, u, v, x, l, m, r);
  }

  lemma SortNothing(w: Work, l: nat, r: nat)
    requires l <= r <= |w.arr| && r < l + 2
    ensures Sorts(w, w, l, r)
  {}

  lemma SortWorkTurn(w: Work, l: nat, m: nat, r: nat)
    requires l + 2 <= r <= |w.arr| <= |w.temp| && m == l + (r - l + 1) / 2
    ensures SortWork(w, l, r) == MergeWork(SortWork(SortWork(w, l, m), m, r), l, m, r)
  {}

  lemma PlacedHalves(n: nat, h: nat)
    requires n >= 2 && h == (n + 1) / 2
    ensures Placed(n) == Placed(h) + Placed(n - h) + n
  {
    assert n - h == n / 2;
  }

  /** The recursion sorts exactly the slice it is given, with the cost of sorting that slice. */
  lemma {:induction false} SortWorkSorts(w: Work, l: nat, r: nat)
    requires l <= r <= |w.arr| <= |w.temp|
    ensures Sorts(w, SortWork(w, l, r), l, r)
    decreases r - l
  {
    if r < l + 2 {
      SortNothing(w, l, r);
    } else {
      var m := l + (r - l + 1) / 2;
      SortWorkSorts(w, l, m);
      SortWorkSorts(SortWork(w, l, m), m, r);
      var v := SortWork(SortWork(w, l, m), m, r);
      MergeWorkMerges(v, l, m, r);
      SortTurn(w, SortWork(w, l, m), v, MergeWork(v, l, m, r), l, m, r);
      SortWorkTurn(w, l, m, r);
    }
  }

  lemma WholeSorted(w: Work)
    requires |w.arr| <= |w.temp|
    ensures var v := SortWork(w, 0, |w.arr|);
      && v.arr == MergeSorted(w.arr)
      && v.swaps == w.swaps + 2 * Placed(|w.arr|)
      && v.comparisons == w.comparisons + SortComparisons(w.arr)
  {
    SortWorkSorts(w, 0, |w.arr|);
    var v := SortWork(w, 0, |w.arr|);
    assert w.arr[0..|w.arr|] == w.arr && v.arr[0..|w.arr|] == v.arr;
  }

  /** s with piece written over it from index at on. */
  ghost function Overlay(s: seq<Record>, at: nat, piece: seq<Record>): (r: seq<Record>)
    requires at + |piece| <= |s|
    ensures |r| == |s|
  {
    s[..at] + piece + s[at + |piece|..]
  }

  lemma OverlayNext(s: seq<Record>, at: nat, piece: seq<Record>, x: Record)
    requires at + |piece| < |s|
    ensures Overlay(s, at, piece)[at + |piece| := x] == Overlay(s, at, piece + [x])
  {}

  lemma OverlaySlice(s: seq<Record>, l: nat, at: nat, piece: seq<Record>)
    requires l <= at && at + |piece| <= |s|
    ensures Overlay(s, at, piece)[l..at + |piece|] == s[l..at] + piece
    ensures Overlay(s, at, piece)[..at] == s[..at]
    ensures Overlay(s, at, piece)[at + |piece|..] == s[at + |piece|..]
    ensures Overlay(s, at, piece)[l..at] == s[l..at]
  {}

  lemma Regroup(a: seq<Record>, b: seq<Record>, c: seq<Record>)
    ensures a + b + c == a + (b + c)
  {}
}
