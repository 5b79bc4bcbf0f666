/** Sorting and intersecting the lists of `DS_Multilist.h` (stacks and unordered lists). */
module Multilists {

  /** May `a` stand before `b`? */
  predicate Before(ascending: bool, a: int, b: int) {
    if ascending then a <= b else b <= a
  }

  ghost predicate Sorted(ascending: bool, s: seq<int>) {
    forall i, j :: 0 <= i < j < |s| ==> Before(ascending, s[i], s[j])
  }

  // ----- permuting a segment of an array -----

  /** `b` is `a` with its elements from `lo` to `hi`, both included, permuted. */
  ghost predicate Permuted(a: seq<int>, b: seq<int>, lo: nat, hi: nat) {
    && lo <= hi < |a| == |b|
    && a[..lo] == b[..lo] && a[hi + 1..] == b[hi + 1..]
    && multiset(a[lo..hi + 1]) == multiset(b[lo..hi + 1])
  }

  lemma PermutedOnce(a: seq<int>, lo: nat, hi: nat)
    requires lo <= hi < |a|
    ensures Permuted(a, a, lo, hi)
  {
  }

  lemma PermutedTwice(a: seq<int>, b: seq<int>, c: seq<int>, lo: nat, hi: nat)
    requires Permuted(a, b, lo, hi) && Permuted(b, c, lo, hi)
    ensures Permuted(a, c, lo, hi)
  {
  }

  lemma SwapPermutes(a: seq<int>, i: nat, j: nat, lo: nat, hi: nat)
    requires lo <= i <= hi < |a| && lo <= j <= hi
    ensures Permuted(a, a[i := a[j]][j := a[i]], lo, hi)
  {
    var b := a[i := a[j]][j := a[i]];
    var s, t := a[lo..hi + 1], b[lo..hi + 1];
    assert t == s[i - lo := s[j - lo]][j - lo := s[i - lo]];
  }

  lemma CutInTwo(a: seq<int>, lo: nat, mid: nat, hi: nat)
    requires lo <= mid <= hi <= |a|
    ensures a[lo..hi] == a[lo..mid] + a[mid..hi]
  {
    var all, both := a[lo..hi], a[lo..mid] + a[mid..hi];
    assert |all| == |both|;
    forall k | 0 <= k < hi - lo ensures all[k] == both[k] {
    }
    assert all == both;
  }

  lemma CutInThree(a: seq<int>, lo: nat, hi: nat, l: nat, h: nat)
    requires lo <= l <= h <= hi < |a|
    ensures a[lo..hi + 1] == a[..l][lo..] + a[l..h + 1] + a[h + 1..][..hi - h]
  {
    var left, right := a[..l][lo..], a[h + 1..][..hi - h];
    assert left == a[lo..l] && right == a[h + 1..hi + 1];
    CutInTwo(a, lo, l, hi + 1);
    CutInTwo(a, l, h + 1, hi + 1);
  }

  /** Permuting a smaller segment permutes the larger one. */
  lemma PermutedWithin(a: seq<int>, b: seq<int>, lo: nat, hi: nat, l: nat, h: nat)
    requires Permuted(a, b, l, h) && lo <= l && h <= hi < |a|
    ensures Permuted(a, b, lo, hi)
  {
    assert a[..lo] == a[..l][..lo] && b[..lo] == b[..l][..lo];
    assert a[hi + 1..] == a[h + 1..][hi - h..] && b[hi + 1..] == b[h + 1..][hi - h..];
    CutInThree(a, lo, hi, l, h);
    CutInThree(b, lo, hi, l, h);
  }

  ghost predicate AllBefore(ascending: bool, s: seq<int>, x: int) {
    forall k :: 0 <= k < |s| ==> Before(ascending, s[k], x)
  }

  ghost predicate AllAfter(ascending: bool, s: seq<int>, x: int) {
    forall k :: 0 <= k < |s| ==> Before(ascending, x, s[k])
  }

  /** What bounds a sequence bounds its permutations. */
  lemma BoundsStay(ascending: bool, s: seq<int>, t: seq<int>, x: int)
    requires multiset(s) == multiset(t)
    ensures AllBefore(ascending, s, x) ==> AllBefore(ascending, t, x)
    ensures AllAfter(ascending, s, x) ==> AllAfter(ascending, t, x)
  {
    forall k | 0 <= k < |t| ensures t[k] in s {
      assert t[k] in multiset(t);
      assert t[k] in multiset(s);
    }
  }

  // ----- quicksort -----

  /** The partition loop and the placing of the pivot: everything up to `left` may stand before everything
      from `right` on. */
  method Partition(ascending: bool, data: array<int>, leftEdge: nat, rightEdge: nat)
    returns (left: nat, right: nat, ghost pivot: int)
    requires leftEdge < rightEdge < data.Length
    modifies data
    ensures leftEdge <= left && right == left + 1 <= rightEdge
    ensures Permuted(old(data[..]), data[..], leftEdge, rightEdge)
    ensures AllBefore(ascending, data[leftEdge..right], pivot)
    ensures AllAfter(ascending, data[right..rightEdge + 1], pivot)
  {
    hide Permuted;
    left, right := leftEdge, rightEdge;
    var pivotIndex := left;
    left := left + 1;
    pivot := data[pivotIndex];
    ghost var a := data[..];
    PermutedOnce(a, leftEdge, rightEdge);
    while left < right
      invariant leftEdge + 1 <= left <= right <= rightEdge
      invariant Permuted(a, data[..], leftEdge, rightEdge)
      invariant data[pivotIndex] == pivot
      invariant forall k :: leftEdge < k < left ==> Before(ascending, data[k], pivot)
      invariant forall k :: right < k <= rightEdge ==> Before(ascending, pivot, data[k])
      decreases right - left
    {
      if Before(ascending, data[left], data[pivotIndex]) {
        left := left + 1;
      } else {
        Exchange(data, left, right, leftEdge, rightEdge, a);
        right := right - 1;
      }
    }
    left, right := PlacePivot(ascending, data, leftEdge, rightEdge, left, a);
  }

  /** Move the pivot between the two sides. */
  method PlacePivot(ascending: bool, data: array<int>, pivotIndex: nat, ghost rightEdge: nat, middle: nat,
                    ghost a: seq<int>)
    returns (left: nat, right: nat)
    requires pivotIndex < middle <= rightEdge < data.Length && Permuted(a, data[..], pivotIndex, rightEdge)
    requires forall k :: pivotIndex < k < middle ==> Before(ascending, data[k], data[pivotIndex])
    requires forall k :: middle < k <= rightEdge ==> Before(ascending, data[pivotIndex], data[k])
    modifies data
    ensures pivotIndex <= left && right == left + 1 <= rightEdge
    ensures Permuted(a, data[..], pivotIndex, rightEdge)
    ensures AllBefore(ascending, data[pivotIndex..right], old(data[pivotIndex]))
    ensures AllAfter(ascending, data[right..rightEdge + 1], old(data[pivotIndex]))
  {
    hide Permuted;
    left, right := middle, middle;
    if !Before(ascending, data[left], data[pivotIndex]) {
      left := left - 1;
      Exchange(data, pivotIndex, left, pivotIndex, rightEdge, a);
    } else {
      Exchange(data, pivotIndex, left, pivotIndex, rightEdge, a);
      left := left - 1;
    }
  }

  /** Swap two elements of a segment. */
  method Exchange(data: array<int>, i: nat, j: nat, ghost lo: nat, ghost hi: nat, ghost a: seq<int>)
    requires lo <= i <= hi < data.Length && lo <= j <= hi && Permuted(a, data[..], lo, hi)
    modifies data
    ensures Permuted(a, data[..], lo, hi)
    ensures data[i] == old(data[j]) && data[j] == old(data[i])
    ensures forall k :: 0 <= k < data.Length && k != i && k != j ==> data[k] == old(data[k])
  {
    hide Permuted;
    ghost var b := data[..];
    SwapPermutes(b, i, j, lo, hi);
    var temp := data[i];
    data[i] := data[j];
    data[j] := temp;
    assert data[..] == b[i := b[j]][j := b[i]];
    PermutedTwice(a, b, data[..], lo, hi);
  }

  /** Sort a segment in place. */
  method QSort(ascending: bool, data: array<int>, leftEdge: nat, rightEdge: nat)
    requires leftEdge < rightEdge < data.Length
    modifies data
    ensures Permuted(old(data[..]), data[..], leftEdge, rightEdge)
    ensures Sorted(ascending, data[leftEdge..rightEdge + 1])
    decreases rightEdge - leftEdge
  {
    hide Permuted, Sorted, AllBefore, AllAfter, Before;
    ghost var a := data[..];
    var left, right, pivot := Partition(ascending, data, leftEdge, rightEdge);
    ghost var b := data[..];
    if left != leftEdge {
      QSort(ascending, data, leftEdge, left);
    }
    ghost var c := data[..];
    if right != rightEdge {
      QSort(ascending, data, right, rightEdge);
    }
    ghost var d := data[..];
    BothSorted(ascending, a, b, c, d, leftEdge, left, rightEdge, pivot);
  }

  /** One side sorted, or a single element left alone. */
  ghost predicate SideSorted(ascending: bool, a: seq<int>, b: seq<int>, lo: nat, hi: nat) {
    lo <= hi && if lo == hi then a == b && hi < |a| else Permuted(a, b, lo, hi) && Sorted(ascending, b[lo..hi + 1])
  }

  /** Sorting the sides permutes the whole, and leaves the sides what they were but for their order. */
  lemma SidesPermuted(ascending: bool, b: seq<int>, c: seq<int>, d: seq<int>, lo: nat, mid: nat, hi: nat)
    requires lo <= mid < hi < |b|
    requires SideSorted(ascending, b, c, lo, mid) && SideSorted(ascending, c, d, mid + 1, hi)
    ensures Permuted(b, c, lo, hi) && Permuted(c, d, lo, hi)
    ensures multiset(d[lo..mid + 1]) == multiset(b[lo..mid + 1])
    ensures multiset(d[mid + 1..hi + 1]) == multiset(b[mid + 1..hi + 1])
    ensures d[lo..mid + 1] == c[lo..mid + 1]
  {
    hide Sorted;
    if lo != mid {
      PermutedWithin(b, c, lo, hi, lo, mid);
    }
    if mid + 1 != hi {
      PermutedWithin(c, d, lo, hi, mid + 1, hi);
    }
    assert c[mid + 1..] == b[mid + 1..] && d[..mid + 1] == c[..mid + 1];
    assert b[mid + 1..hi + 1] == b[mid + 1..][..hi - mid] == c[mid + 1..hi + 1];
    assert d[lo..mid + 1] == d[..mid + 1][lo..] == c[lo..mid + 1];
  }

  lemma SideIsSorted(ascending: bool, a: seq<int>, b: seq<int>, lo: nat, hi: nat)
    requires SideSorted(ascending, a, b, lo, hi)
    ensures hi < |b| && Sorted(ascending, b[lo..hi + 1])
  {
  }

  lemma SortedAround(ascending: bool, l: seq<int>, r: seq<int>, pivot: int)
    requires Sorted(ascending, l) && Sorted(ascending, r)
    requires AllBefore(ascending, l, pivot) && AllAfter(ascending, r, pivot)
    ensures Sorted(ascending, l + r)
  {
  }

  /** With both sides of a partition sorted the segment is sorted. */
  lemma BothSorted(ascending: bool, a: seq<int>, b: seq<int>, c: seq<int>, d: seq<int>,
                   lo: nat, mid: nat, hi: nat, pivot: int)
    requires lo <= mid < hi < |b| && Permuted(a, b, lo, hi)
    requires AllBefore(ascending, b[lo..mid + 1], pivot) && AllAfter(ascending, b[mid + 1..hi + 1], pivot)
    requires SideSorted(ascending, b, c, lo, mid) && SideSorted(ascending, c, d, mid + 1, hi)
    ensures Permuted(a, d, lo, hi) && Sorted(ascending, d[lo..hi + 1])
  {
    hide *;
    SideIsSorted(ascending, b, c, lo, mid);
    SideIsSorted(ascending, c, d, mid + 1, hi);
    SidesPermuted(ascending, b, c, d, lo, mid, hi);
    PermutedTwice(a, b, c, lo, hi);
    PermutedTwice(a, c, d, lo, hi);
    var l, r := d[lo..mid + 1], d[mid + 1..hi + 1];
    BoundsStay(ascending, b[lo..mid + 1], l, pivot);
    BoundsStay(ascending, b[mid + 1..hi + 1], r, pivot);
    SortedAround(ascending, l, r, pivot);
    assert d[lo..hi + 1] == l + r;
  }

  // ----- lists -----

  datatype SortState = ML_UNSORTED | ML_SORTED_ASCENDING | ML_SORTED_DESCENDING

  /** A list of the stack or unordered kind, for which these operations are the same. */
  class Multilist {
    var data: array<int>
    var dataSize: nat
    var sortState: SortState
    var ascendingSort: bool

    /** While the list is taken for sorted it is, in the order that ascendingSort says: which of the two
        sorted states it is in does not matter. */
    ghost predicate Valid()
      reads this, data
    {
      dataSize <= data.Length && (sortState != ML_UNSORTED ==> Sorted(ascendingSort, data[..dataSize]))
    }

    ghost function Items(): seq<int>
      reads this, data
    {
      if dataSize <= data.Length then data[..dataSize] else []
    }

    /** The list is in the array. */
    lemma IsStored()
      requires Valid()
      ensures |Items()| == dataSize <= data.Length
      ensures forall k :: 0 <= k < dataSize ==> Items()[k] == data[k]
    {
    }

    constructor ()
      ensures Valid() && Items() == [] && fresh(data)
      ensures ascendingSort && sortState == ML_UNSORTED
    {
      data := new int[0];
      dataSize, sortState, ascendingSort := 0, ML_UNSORTED, true;
    }

    method Clear()
      requires Valid()
      modifies this
      ensures Valid() && Items() == [] && sortState == ML_UNSORTED && ascendingSort == old(ascendingSort)
      ensures if old(data.Length) < 128 then data.Length == 0 else data == old(data)
      ensures fresh(data) || data == old(data)
    {
      dataSize := 0;
      sortState := ML_UNSORTED;
      if data.Length < 128 && data.Length != 0 {
        data := new int[0];
      }
    }

    method ReallocateIfNeeded()
      requires Valid()
      modifies this`data
      ensures Valid() && Items() == old(Items()) && dataSize < data.Length
      ensures dataSize < old(data.Length) ==> data == old(data)
      ensures dataSize == old(data.Length) ==>
                data.Length == if dataSize < 16 then 32 else if dataSize > 65536 then dataSize + 65536 else dataSize * 2
      ensures fresh(data) || data == old(data)
    {
      if dataSize < data.Length {
        return;
      }
      var newAllocationSize := if data.Length < 16 then 32
                               else if data.Length > 65536 then data.Length + 65536
                               else 2 * data.Length;
      var newData := new int[newAllocationSize];
      var i := 0;
      while i < dataSize
        invariant 0 <= i <= dataSize && data == old(data)
        invariant forall k :: 0 <= k < i ==> newData[k] == data[k]
      {
        newData[i] := data[i];
        i := i + 1;
      }
      assert newData[..dataSize] == data[..dataSize];
      data := newData;
    }

    method Push(d: int)
      requires Valid()
      modifies this, data
      ensures Valid() && Items() == old(Items()) + [d] && ascendingSort == old(ascendingSort)
      ensures sortState == if old(Items()) == [] then old(sortState) else ML_UNSORTED
      ensures fresh(data) || data == old(data)
    {
      ReallocateIfNeeded();
      data[dataSize] := d;
      dataSize := dataSize + 1;
      assert data[..dataSize] == old(Items()) + [d];
      if sortState != ML_UNSORTED && dataSize > 1 {
        sortState := ML_UNSORTED;
      }
    }

    /** Remember the order; a sorted list in the other order is reversed. */
    method SetSortOrder(ascending: bool)
      requires Valid()
      modifies this`ascendingSort, data
      ensures Valid() && ascendingSort == ascending && multiset(Items()) == multiset(old(Items()))
      ensures Items() == if old(ascendingSort) != ascending && sortState != ML_UNSORTED
                         then Reversed(old(Items())) else old(Items())
    {
      if ascendingSort != ascending && sortState != ML_UNSORTED {
        ascendingSort := ascending;
        ReverseListInternal();
        ReversedSorted(!ascending, old(Items()));
        ReversedKeeps(old(Items()));
      } else {
        ascendingSort := ascending;
      }
    }

    static function Reversed(s: seq<int>): (r: seq<int>)
      ensures |r| == |s| && forall k :: 0 <= k < |s| ==> r[k] == s[|s| - 1 - k]
    {
      seq(|s|, k requires 0 <= k < |s| => s[|s| - 1 - k])
    }

    static lemma ReversedSorted(ascending: bool, s: seq<int>)
      requires Sorted(ascending, s)
      ensures Sorted(!ascending, Reversed(s))
    {
    }

    static lemma {:induction false} ReversedKeeps(s: seq<int>)
      ensures multiset(Reversed(s)) == multiset(s)
    {
      if s == [] {
        assert Reversed(s) == s;
      } else {
        ReversedKeeps(s[1..]);
        assert Reversed(s) == Reversed(s[1..]) + [s[0]];
        assert s == [s[0]] + s[1..];
      }
    }

    method ReverseListInternal()
      requires dataSize <= data.Length
      modifies data
      ensures Items() == Reversed(old(Items()))
    {
      var n, i := dataSize, 0;
      while i < dataSize / 2
        invariant 0 <= i <= n / 2
        invariant forall k :: 0 <= k < i ==> data[k] == old(data[n - 1 - k]) && data[n - 1 - k] == old(data[k])
        invariant forall k :: i <= k < n - i ==> data[k] == old(data[k])
      {
        var temp := data[i];
        data[i] := data[n - 1 - i];
        data[n - 1 - i] := temp;
        i := i + 1;
      }
    }

    /** Sort the list, unless it is taken for sorted. */
    method Sort(force: bool)
      requires Valid()
      modifies this`sortState, data
      ensures Valid() && sortState != ML_UNSORTED
      ensures forall i, j :: 0 <= i < j < |Items()| ==>
                if ascendingSort then Items()[i] <= Items()[j] else Items()[i] >= Items()[j]
      ensures Sorted(ascendingSort, Items()) && multiset(Items()) == multiset(old(Items()))
      ensures old(sortState) != ML_UNSORTED && !force ==> Items() == old(Items())
    {
      if sortState != ML_UNSORTED && !force {
        return;
      }
      if dataSize > 1 {
        ghost var a := data[..];
        QSort(ascendingSort, data, 0, dataSize - 1);
        assert a[0..dataSize - 1 + 1] == a[..dataSize] && data[0..dataSize - 1 + 1] == data[..dataSize];
      }
      sortState := if ascendingSort then ML_SORTED_ASCENDING else ML_SORTED_DESCENDING;
    }
  }

  // ----- intersection -----

  /** What was taken from a sorted list so far, in order, and not above what is left of it. */
  ghost predicate TakenFrom(xs: seq<int>, s: seq<int>, index: nat) {
    Sorted(true, xs) && forall x, k :: x in xs && index <= k < |s| ==> x <= s[k]
  }

  lemma TakeNext(xs: seq<int>, s: seq<int>, index: nat)
    requires TakenFrom(xs, s, index) && Sorted(true, s) && index < |s|
    ensures TakenFrom(xs, s, index + 1) && TakenFrom(xs + [s[index]], s, index + 1)
  {
    forall k | index < k < |s| ensures s[index] <= s[k] {
      assert Before(true, s[index], s[k]);
    }
    var more := xs + [s[index]];
    forall i, j | 0 <= i < j < |more| ensures Before(true, more[i], more[j]) {
      assert more[i] == xs[i] && xs[i] in xs;
    }
  }

  /** The merge so far. */
  ghost predicate Merged(s1: seq<int>, s2: seq<int>, index1: nat, index2: nat,
                         both: seq<int>, only1: seq<int>, only2: seq<int>) {
    && index1 <= |s1| && index2 <= |s2|
    && multiset(s1[..index1]) == multiset(both) + multiset(only1)
    && multiset(s2[..index2]) == multiset(both) + multiset(only2)
    && (forall x, k :: x in only1 && index2 <= k < |s2| ==> x < s2[k])
    && (forall x, k :: x in only2 && index1 <= k < |s1| ==> x < s1[k])
    && (forall x :: x in only1 ==> x !in only2)
    && TakenFrom(both, s1, index1) && TakenFrom(both, s2, index2)
    && TakenFrom(only1, s1, index1) && TakenFrom(only2, s2, index2)
  }

  /** An element smaller than all that is left of the other list goes to its own list. */
  lemma MergeFirst(s1: seq<int>, s2: seq<int>, index1: nat, index2: nat,
                   both: seq<int>, only1: seq<int>, only2: seq<int>)
    requires Merged(s1, s2, index1, index2, both, only1, only2) && Sorted(true, s1) && Sorted(true, s2)
    requires index1 < |s1| && (index2 == |s2| || s1[index1] < s2[index2])
    ensures Merged(s1, s2, index1 + 1, index2, both, only1 + [s1[index1]], only2)
  {
    TakeNext(both, s1, index1);
    TakeNext(only1, s1, index1);
    hide TakenFrom;
    var x := s1[index1];
    assert s1[..index1 + 1] == s1[..index1] + [x];
    forall y | y in only2 ensures y < x {
    }
    forall y, k | y in only1 + [x] && index2 <= k < |s2| ensures y < s2[k] {
      assert s2[index2] <= s2[k];
    }
  }

  lemma MergeBoth(s1: seq<int>, s2: seq<int>, index1: nat, index2: nat,
                  both: seq<int>, only1: seq<int>, only2: seq<int>)
    requires Merged(s1, s2, index1, index2, both, only1, only2) && Sorted(true, s1) && Sorted(true, s2)
    requires index1 < |s1| && index2 < |s2| && s1[index1] == s2[index2]
    ensures Merged(s1, s2, index1 + 1, index2 + 1, both + [s1[index1]], only1, only2)
  {
    hide Sorted;
    TakeNext(both, s1, index1);
    TakeNext(both, s2, index2);
    TakeNext(only1, s1, index1);
    TakeNext(only2, s2, index2);
    hide TakenFrom;
    assert s1[..index1 + 1] == s1[..index1] + [s1[index1]];
    assert s2[..index2 + 1] == s2[..index2] + [s2[index2]];
  }

  lemma MergeTurned(s1: seq<int>, s2: seq<int>, index1: nat, index2: nat,
                    both: seq<int>, only1: seq<int>, only2: seq<int>)
    requires Merged(s1, s2, index1, index2, both, only1, only2)
    ensures Merged(s2, s1, index2, index1, both, only2, only1)
  {
  }

  lemma MergeSecond(s1: seq<int>, s2: seq<int>, index1: nat, index2: nat,
                    both: seq<int>, only1: seq<int>, only2: seq<int>)
    requires Merged(s1, s2, index1, index2, both, only1, only2) && Sorted(true, s1) && Sorted(true, s2)
    requires index2 < |s2| && (index1 == |s1| || s2[index2] < s1[index1])
    ensures Merged(s1, s2, index1, index2 + 1, both, only1, only2 + [s2[index2]])
  {
    hide *;
    MergeTurned(s1, s2, index1, index2, both, only1, only2);
    MergeFirst(s2, s1, index2, index1, both, only2, only1);
    MergeTurned(s2, s1, index2 + 1, index1, both, only2 + [s2[index2]], only1);
  }

  /** When one list is used up the rest of the other goes to its own list. */
  lemma {:induction false} MergeRest(s1: seq<int>, s2: seq<int>, index1: nat,
                                     both: seq<int>, only1: seq<int>, only2: seq<int>)
    requires index1 <= |s1| && Merged(s1, s2, index1, |s2|, both, only1, only2)
    requires Sorted(true, s1) && Sorted(true, s2)
    ensures Merged(s1, s2, |s1|, |s2|, both, only1 + s1[index1..], only2)
    decreases |s1| - index1
  {
    hide *;
    if index1 < |s1| {
      MergeFirst(s1, s2, index1, |s2|, both, only1, only2);
      MergeRest(s1, s2, index1 + 1, both, only1 + [s1[index1]], only2);
      assert only1 + [s1[index1]] + s1[index1 + 1..] == only1 + s1[index1..];
    } else {
      assert only1 + s1[index1..] == only1;
    }
  }

  lemma MergeRestTurned(s1: seq<int>, s2: seq<int>, index2: nat,
                        both: seq<int>, only1: seq<int>, only2: seq<int>)
    requires index2 <= |s2| && Merged(s1, s2, |s1|, index2, both, only1, only2)
    requires Sorted(true, s1) && Sorted(true, s2)
    ensures Merged(s1, s2, |s1|, |s2|, both, only1, only2 + s2[index2..])
  {
    hide *;
    MergeTurned(s1, s2, |s1|, index2, both, only1, only2);
    MergeRest(s2, s1, index2, both, only2, only1);
    MergeTurned(s2, s1, |s2|, |s1|, both, only2 + s2[index2..], only1);
  }

  lemma MergeNothing(s1: seq<int>, s2: seq<int>)
    ensures Merged(s1, s2, 0, 0, [], [], [])
  {
  }

  /** When a merge is over, what was found in both is the intersection of the sources, and what was found in
      one only is what that one has more of. */
  lemma MergedAll(s1: seq<int>, s2: seq<int>, both: seq<int>, only1: seq<int>, only2: seq<int>)
    requires Merged(s1, s2, |s1|, |s2|, both, only1, only2)
    ensures multiset(s1) == multiset(both) + multiset(only1)
    ensures multiset(s2) == multiset(both) + multiset(only2)
    ensures multiset(both) == multiset(s1) * multiset(s2)
    ensures multiset(only1) !! multiset(only2)
    ensures Sorted(true, both) && Sorted(true, only1) && Sorted(true, only2)
  {
    assert s1[..|s1|] == s1 && s2[..|s2|] == s2;
    forall x ensures multiset(only1)[x] == 0 || multiset(only2)[x] == 0 {
      assert x in only1 ==> x !in only2;
    }
  }

  /** The last three are apart from each other and from the first two, which may be the same. */
  ghost predicate Apart(a: object, b: object, c: object, d: object, e: object) {
    a != c && a != d && a != e && b != c && b != d && b != e && c != d && c != e && d != e
  }

  /** Split two lists, which it sorts, into what they share and what only one of them has. */
  method FindIntersection(source1: Multilist, source2: Multilist, intersection: Multilist,
                          uniqueToSource1: Multilist, uniqueToSource2: Multilist)
    requires source1.Valid() && source2.Valid() && intersection.Valid()
    requires uniqueToSource1.Valid() && uniqueToSource2.Valid()
    requires Apart(source1, source2, intersection, uniqueToSource1, uniqueToSource2)
    requires Apart(source1.data, source2.data, intersection.data, uniqueToSource1.data, uniqueToSource2.data)
    requires source1 == source2 <==> source1.data == source2.data
    modifies source1, source2, intersection, uniqueToSource1, uniqueToSource2
    modifies source1.data, source2.data, intersection.data, uniqueToSource1.data, uniqueToSource2.data
    ensures source1.Valid() && source2.Valid() && intersection.Valid()
    ensures uniqueToSource1.Valid() && uniqueToSource2.Valid()
    ensures source1.ascendingSort && source2.ascendingSort
    ensures source1.sortState != ML_UNSORTED && source2.sortState != ML_UNSORTED
    ensures fresh(intersection.data) || intersection.data == old(intersection.data)
    ensures fresh(uniqueToSource1.data) || uniqueToSource1.data == old(uniqueToSource1.data)
    ensures fresh(uniqueToSource2.data) || uniqueToSource2.data == old(uniqueToSource2.data)
    ensures intersection.ascendingSort == old(intersection.ascendingSort)
    ensures uniqueToSource1.ascendingSort == old(uniqueToSource1.ascendingSort)
    ensures uniqueToSource2.ascendingSort == old(uniqueToSource2.ascendingSort)
    ensures Sorted(true, source1.Items()) && multiset(source1.Items()) == multiset(old(source1.Items()))
    ensures Sorted(true, source2.Items()) && multiset(source2.Items()) == multiset(old(source2.Items()))
    ensures multiset(intersection.Items()) + multiset(uniqueToSource1.Items()) == multiset(old(source1.Items()))
    ensures multiset(intersection.Items()) + multiset(uniqueToSource2.Items()) == multiset(old(source2.Items()))
    ensures multiset(intersection.Items()) == multiset(old(source1.Items())) * multiset(old(source2.Items()))
    ensures multiset(uniqueToSource1.Items()) !! multiset(uniqueToSource2.Items())
    ensures Sorted(true, intersection.Items())
    ensures Sorted(true, uniqueToSource1.Items()) && Sorted(true, uniqueToSource2.Items())
  {
    hide Sorted, Merged, Multilist.Valid, Multilist.Items;
    SortSources(source1, source2);
    SplitSorted(source1, source2, intersection, uniqueToSource1, uniqueToSource2);
  }

  /** The rest of FindIntersection, the sources being sorted. */
  method SplitSorted(source1: Multilist, source2: Multilist, intersection: Multilist,
                     uniqueToSource1: Multilist, uniqueToSource2: Multilist)
    requires source1.Valid() && source2.Valid() && intersection.Valid()
    requires uniqueToSource1.Valid() && uniqueToSource2.Valid()
    requires Apart(source1, source2, intersection, uniqueToSource1, uniqueToSource2)
    requires Apart(source1.data, source2.data, intersection.data, uniqueToSource1.data, uniqueToSource2.data)
    requires Sorted(true, source1.Items()) && Sorted(true, source2.Items())
    modifies intersection, uniqueToSource1, uniqueToSource2
    modifies intersection.data, uniqueToSource1.data, uniqueToSource2.data
    ensures intersection.Valid() && uniqueToSource1.Valid() && uniqueToSource2.Valid()
    ensures fresh(intersection.data) || intersection.data == old(intersection.data)
    ensures fresh(uniqueToSource1.data) || uniqueToSource1.data == old(uniqueToSource1.data)
    ensures fresh(uniqueToSource2.data) || uniqueToSource2.data == old(uniqueToSource2.data)
    ensures intersection.ascendingSort == old(intersection.ascendingSort)
    ensures uniqueToSource1.ascendingSort == old(uniqueToSource1.ascendingSort)
    ensures uniqueToSource2.ascendingSort == old(uniqueToSource2.ascendingSort)
    ensures multiset(intersection.Items()) + multiset(uniqueToSource1.Items()) == multiset(source1.Items())
    ensures multiset(intersection.Items()) + multiset(uniqueToSource2.Items()) == multiset(source2.Items())
    ensures multiset(intersection.Items()) == multiset(source1.Items()) * multiset(source2.Items())
    ensures multiset(uniqueToSource1.Items()) !! multiset(uniqueToSource2.Items())
    ensures Sorted(true, intersection.Items())
    ensures Sorted(true, uniqueToSource1.Items()) && Sorted(true, uniqueToSource2.Items())
  {
    hide Sorted, Merged, Multilist.Valid, Multilist.Items;
    ClearAll(intersection, uniqueToSource1, uniqueToSource2);
    Split(source1, source2, intersection, uniqueToSource1, uniqueToSource2);
  }

  method SortSources(source1: Multilist, source2: Multilist)
    requires source1.Valid() && source2.Valid() && (source1 == source2 <==> source1.data == source2.data)
    modifies source1`ascendingSort, source1`sortState, source1.data
    modifies source2`ascendingSort, source2`sortState, source2.data
    ensures source1.Valid() && source2.Valid() && source1.ascendingSort && source2.ascendingSort
    ensures source1.sortState != ML_UNSORTED && source2.sortState != ML_UNSORTED
    ensures Sorted(true, source1.Items()) && multiset(source1.Items()) == multiset(old(source1.Items()))
    ensures Sorted(true, source2.Items()) && multiset(source2.Items()) == multiset(old(source2.Items()))
  {
    hide Sorted, Multilist.Valid, Multilist.Items;
    source1.SetSortOrder(true);
    source2.SetSortOrder(true);
    source1.Sort(false);
    source2.Sort(false);
  }

  method ClearAll(a: Multilist, b: Multilist, c: Multilist)
    requires a.Valid() && b.Valid() && c.Valid() && a != b && b != c && a != c
    requires a.data != b.data && b.data != c.data && a.data != c.data
    modifies a, b, c
    ensures a.Valid() && b.Valid() && c.Valid()
    ensures a.Items() == b.Items() == c.Items() == []
    ensures fresh(a.data) || a.data == old(a.data)
    ensures fresh(b.data) || b.data == old(b.data)
    ensures fresh(c.data) || c.data == old(c.data)
    ensures a.ascendingSort == old(a.ascendingSort)
    ensures b.ascendingSort == old(b.ascendingSort)
    ensures c.ascendingSort == old(c.ascendingSort)
    ensures a.data != b.data && b.data != c.data && a.data != c.data
  {
    hide Sorted, Multilist.Valid, Multilist.Items;
    a.Clear();
    b.Clear();
    c.Clear();
  }

  /** The three loops of FindIntersection. */
  method Split(source1: Multilist, source2: Multilist, intersection: Multilist,
               uniqueToSource1: Multilist, uniqueToSource2: Multilist)
    requires source1.Valid() && source2.Valid() && intersection.Valid()
    requires uniqueToSource1.Valid() && uniqueToSource2.Valid()
    requires Apart(source1, source2, intersection, uniqueToSource1, uniqueToSource2)
    requires Apart(source1.data, source2.data, intersection.data, uniqueToSource1.data, uniqueToSource2.data)
    requires Sorted(true, source1.Items()) && Sorted(true, source2.Items())
    requires intersection.Items() == uniqueToSource1.Items() == uniqueToSource2.Items() == []
    modifies intersection, uniqueToSource1, uniqueToSource2
    modifies intersection.data, uniqueToSource1.data, uniqueToSource2.data
    ensures intersection.Valid() && uniqueToSource1.Valid() && uniqueToSource2.Valid()
    ensures fresh(intersection.data) || intersection.data == old(intersection.data)
    ensures fresh(uniqueToSource1.data) || uniqueToSource1.data == old(uniqueToSource1.data)
    ensures fresh(uniqueToSource2.data) || uniqueToSource2.data == old(uniqueToSource2.data)
    ensures intersection.ascendingSort == old(intersection.ascendingSort)
    ensures uniqueToSource1.ascendingSort == old(uniqueToSource1.ascendingSort)
    ensures uniqueToSource2.ascendingSort == old(uniqueToSource2.ascendingSort)
    ensures multiset(intersection.Items()) + multiset(uniqueToSource1.Items()) == multiset(source1.Items())
    ensures multiset(intersection.Items()) + multiset(uniqueToSource2.Items()) == multiset(source2.Items())
    ensures multiset(intersection.Items()) == multiset(source1.Items()) * multiset(source2.Items())
    ensures multiset(uniqueToSource1.Items()) !! multiset(uniqueToSource2.Items())
    ensures Sorted(true, intersection.Items())
    ensures Sorted(true, uniqueToSource1.Items()) && Sorted(true, uniqueToSource2.Items())
  {
    hide Sorted, Merged, Multilist.Valid, Multilist.Items;
    var index1, index2 := MergeHeads(source1, source2, intersection, uniqueToSource1, uniqueToSource2);
    MergeTails(source1, source2, index1, index2, intersection, uniqueToSource1, uniqueToSource2);
    MergedAll(source1.Items(), source2.Items(),
              intersection.Items(), uniqueToSource1.Items(), uniqueToSource2.Items());
  }

  /** Move in step through both lists until one is used up. */
  method MergeHeads(source1: Multilist, source2: Multilist, intersection: Multilist,
                    uniqueToSource1: Multilist, uniqueToSource2: Multilist)
    returns (index1: nat, index2: nat)
    requires source1.Valid() && source2.Valid() && intersection.Valid()
    requires uniqueToSource1.Valid() && uniqueToSource2.Valid()
    requires Apart(source1, source2, intersection, uniqueToSource1, uniqueToSource2)
    requires Apart(source1.data, source2.data, intersection.data, uniqueToSource1.data, uniqueToSource2.data)
    requires Sorted(true, source1.Items()) && Sorted(true, source2.Items())
    requires intersection.Items() == uniqueToSource1.Items() == uniqueToSource2.Items() == []
    modifies intersection, uniqueToSource1, uniqueToSource2
    modifies intersection.data, uniqueToSource1.data, uniqueToSource2.data
    ensures intersection.Valid() && uniqueToSource1.Valid() && uniqueToSource2.Valid()
    ensures Apart(source1.data, source2.data, intersection.data, uniqueToSource1.data, uniqueToSource2.data)
    ensures fresh(intersection.data) || intersection.data == old(intersection.data)
    ensures fresh(uniqueToSource1.data) || uniqueToSource1.data == old(uniqueToSource1.data)
    ensures fresh(uniqueToSource2.data) || uniqueToSource2.data == old(uniqueToSource2.data)
    ensures intersection.ascendingSort == old(intersection.ascendingSort)
    ensures uniqueToSource1.ascendingSort == old(uniqueToSource1.ascendingSort)
    ensures uniqueToSource2.ascendingSort == old(uniqueToSource2.ascendingSort)
    ensures index1 <= |source1.Items()| && index2 <= |source2.Items()|
    ensures index1 == |source1.Items()| || index2 == |source2.Items()|
    ensures Merged(source1.Items(), source2.Items(), index1, index2,
                   intersection.Items(), uniqueToSource1.Items(), uniqueToSource2.Items())
  {
    hide Merged, Sorted, Multilist.Valid, Multilist.Items;
    source1.IsStored();
    source2.IsStored();
    ghost var s1, s2 := source1.Items(), source2.Items();
    MergeNothing(s1, s2);
    index1, index2 := 0, 0;
    while index1 < source1.dataSize && index2 < source2.dataSize
      invariant intersection.Valid() && uniqueToSource1.Valid() && uniqueToSource2.Valid()
      invariant Apart(source1.data, source2.data, intersection.data, uniqueToSource1.data, uniqueToSource2.data)
      invariant fresh(intersection.data) || intersection.data == old(intersection.data)
      invariant fresh(uniqueToSource1.data) || uniqueToSource1.data == old(uniqueToSource1.data)
      invariant fresh(uniqueToSource2.data) || uniqueToSource2.data == old(uniqueToSource2.data)
      invariant intersection.ascendingSort == old(intersection.ascendingSort)
      invariant uniqueToSource1.ascendingSort == old(uniqueToSource1.ascendingSort)
      invariant uniqueToSource2.ascendingSort == old(uniqueToSource2.ascendingSort)
      invariant index1 <= |s1| && index2 <= |s2|
      invariant Merged(s1, s2, index1, index2, intersection.Items(), uniqueToSource1.Items(), uniqueToSource2.Items())
      decreases |s1| - index1 + |s2| - index2
    {
      index1, index2 := MergeHead(source1, source2, index1, index2, intersection, uniqueToSource1, uniqueToSource2);
    }
  }

  /** One turn of the merging loop. */
  method MergeHead(source1: Multilist, source2: Multilist, i1: nat, i2: nat, intersection: Multilist,
                   uniqueToSource1: Multilist, uniqueToSource2: Multilist)
    returns (index1: nat, index2: nat)
    requires source1.Valid() && source2.Valid() && intersection.Valid()
    requires uniqueToSource1.Valid() && uniqueToSource2.Valid()
    requires Apart(source1, source2, intersection, uniqueToSource1, uniqueToSource2)
    requires Apart(source1.data, source2.data, intersection.data, uniqueToSource1.data, uniqueToSource2.data)
    requires Sorted(true, source1.Items()) && Sorted(true, source2.Items())
    requires i1 < |source1.Items()| && i2 < |source2.Items()|
    requires Merged(source1.Items(), source2.Items(), i1, i2,
                    intersection.Items(), uniqueToSource1.Items(), uniqueToSource2.Items())
    modifies intersection, uniqueToSource1, uniqueToSource2
    modifies intersection.data, uniqueToSource1.data, uniqueToSource2.data
    ensures intersection.Valid() && uniqueToSource1.Valid() && uniqueToSource2.Valid()
    ensures Apart(source1.data, source2.data, intersection.data, uniqueToSource1.data, uniqueToSource2.data)
    ensures fresh(intersection.data) || intersection.data == old(intersection.data)
    ensures fresh(uniqueToSource1.data) || uniqueToSource1.data == old(uniqueToSource1.data)
    ensures fresh(uniqueToSource2.data) || uniqueToSource2.data == old(uniqueToSource2.data)
    ensures intersection.ascendingSort == old(intersection.ascendingSort)
    ensures uniqueToSource1.ascendingSort == old(uniqueToSource1.ascendingSort)
    ensures uniqueToSource2.ascendingSort == old(uniqueToSource2.ascendingSort)
    ensures i1 <= index1 <= |source1.Items()| && i2 <= index2 <= |source2.Items()| && i1 + i2 < index1 + index2
    ensures Merged(source1.Items(), source2.Items(), index1, index2,
                   intersection.Items(), uniqueToSource1.Items(), uniqueToSource2.Items())
  {
    hide Merged, Sorted, Multilist.Valid, Multilist.Items;
    source1.IsStored();
    source2.IsStored();
    ghost var s1, s2 := source1.Items(), source2.Items();
    index1, index2 := i1, i2;
    ghost var both, only1, only2 := intersection.Items(), uniqueToSource1.Items(), uniqueToSource2.Items();
    if source1.data[index1] < source2.data[index2] {
      MergeFirst(s1, s2, index1, index2, both, only1, only2);
      uniqueToSource1.Push(source1.data[index1]);
      index1 := index1 + 1;
    } else if source1.data[index1] == source2.data[index2] {
      MergeBoth(s1, s2, index1, index2, both, only1, only2);
      intersection.Push(source1.data[index1]);
      index1 := index1 + 1;
      index2 := index2 + 1;
    } else {
      MergeSecond(s1, s2, index1, index2, both, only1, only2);
      uniqueToSource2.Push(source2.data[index2]);
      index2 := index2 + 1;
    }
  }

  /** The list that is not used up goes to what is unique to it. */
  method MergeTails(source1: Multilist, source2: Multilist, index1: nat, index2: nat, ghost intersection: Multilist,
                    uniqueToSource1: Multilist, uniqueToSource2: Multilist)
    requires source1.Valid() && source2.Valid() && intersection.Valid()
    requires uniqueToSource1.Valid() && uniqueToSource2.Valid()
    requires Apart(source1, source2, intersection, uniqueToSource1, uniqueToSource2)
    requires Apart(source1.data, source2.data, intersection.data, uniqueToSource1.data, uniqueToSource2.data)
    requires Sorted(true, source1.Items()) && Sorted(true, source2.Items())
    requires index1 <= |source1.Items()| && index2 <= |source2.Items()|
    requires index1 == |source1.Items()| || index2 == |source2.Items()|
    requires Merged(source1.Items(), source2.Items(), index1, index2,
                    intersection.Items(), uniqueToSource1.Items(), uniqueToSource2.Items())
    modifies uniqueToSource1, uniqueToSource2, uniqueToSource1.data, uniqueToSource2.data
    ensures uniqueToSource1.Valid() && uniqueToSource2.Valid()
    ensures fresh(uniqueToSource1.data) || uniqueToSource1.data == old(uniqueToSource1.data)
    ensures fresh(uniqueToSource2.data) || uniqueToSource2.data == old(uniqueToSource2.data)
    ensures uniqueToSource1.ascendingSort == old(uniqueToSource1.ascendingSort)
    ensures uniqueToSource2.ascendingSort == old(uniqueToSource2.ascendingSort)
    ensures Merged(source1.Items(), source2.Items(), |source1.Items()|, |source2.Items()|,
                   intersection.Items(), uniqueToSource1.Items(), uniqueToSource2.Items())
  {
    hide Merged, Sorted, Multilist.Valid, Multilist.Items;
    ghost var s1, s2 := source1.Items(), source2.Items();
    ghost var both, only1, only2 := intersection.Items(), uniqueToSource1.Items(), uniqueToSource2.Items();
    PushRest(source1, index1, uniqueToSource1);
    PushRest(source2, index2, uniqueToSource2);
    if index2 == |s2| {
      MergeRest(s1, s2, index1, both, only1, only2);
      assert only2 + s2[index2..] == only2;
    } else {
      MergeRestTurned(s1, s2, index2, both, only1, only2);
      assert only1 + s1[index1..] == only1;
    }
  }

  method PushRest(source: Multilist, index: nat, target: Multilist)
    requires source.Valid() && target.Valid() && source != target && source.data != target.data
    requires index <= |source.Items()|
    modifies target, target.data
    ensures target.Valid() && target.Items() == old(target.Items()) + source.Items()[index..]
    ensures target.ascendingSort == old(target.ascendingSort)
    ensures fresh(target.data) || target.data == old(target.data)
  {
    hide Sorted, Multilist.Valid, Multilist.Items;
    source.IsStored();
    ghost var s, t := source.Items(), target.Items();
    var i := index;
    while i < source.dataSize
      invariant index <= i <= |s| && target.Valid() && source.data != target.data
      invariant target.ascendingSort == old(target.ascendingSort)
      invariant fresh(target.data) || target.data == old(target.data)
      invariant target.Items() == t + s[index..i]
    {
      target.Push(source.data[i]);
      i := i + 1;
      assert s[index..i] == s[index..i - 1] + [s[i - 1]];
    }
  }
}
