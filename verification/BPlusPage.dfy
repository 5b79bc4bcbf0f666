/** Pages of the B+ tree (DS_BPlusTree.h:44-67) and the loops that work inside one page. */
module BPlusPage {

  /** One page, used both as a leaf and as an index node. The buffers `keys[order]`, `data[order]`
      and `children[order+1]` are embedded in the page, so they are fields of fixed length that
      belong to the page alone; `size` says how much of them is in use. `data` has one spare slot. */
  class Page {
    var isLeaf: bool
    var size: int
    var keys: seq<int>
    var data: seq<int>
    var children: seq<Page?>
    var next: Page?
    var previous: Page?

    constructor (order: nat)
      ensures Buffers(order) && size == 0
    {
      isLeaf := true;
      size := 0;
      keys := seq(order, _ => 0);
      data := seq(order + 1, _ => 0);
      children := seq(order + 1, _ => null);
      next := null;
      previous := null;
    }

    /** The buffers have their fixed lengths and `size` stays inside them. */
    ghost predicate Buffers(order: nat)
      reads this`size, this`keys, this`data, this`children
    {
      0 <= size <= order && |keys| == order && |data| == order + 1 && |children| == order + 1
    }
  }

  /** `for (i = lo; i < hi; i++) s[i] = s[i+1]` */
  method ShiftDown<T>(s: seq<T>, lo: int, hi: int) returns (r: seq<T>)
    requires 0 <= lo <= hi < |s|
    ensures |r| == |s|
    ensures forall j :: lo <= j < hi ==> r[j] == s[j + 1]
    ensures forall j :: 0 <= j < lo || hi <= j < |s| ==> r[j] == s[j]
  {
    r := s;
    var i := lo;
    while i < hi
      invariant lo <= i <= hi
      invariant |r| == |s|
      invariant forall j :: lo <= j < i ==> r[j] == s[j + 1]
      invariant forall j :: 0 <= j < lo || i <= j < |s| ==> r[j] == s[j]
    {
      r := r[i := r[i + 1]];
      i := i + 1;
    }
  }

  /** `for (i = hi; i > lo; i--) s[i] = s[i-1]` */
  method ShiftUp<T>(s: seq<T>, lo: int, hi: int) returns (r: seq<T>)
    requires 0 <= lo <= hi < |s|
    ensures |r| == |s|
    ensures forall j :: lo < j <= hi ==> r[j] == s[j - 1]
    ensures forall j :: 0 <= j <= lo || hi < j < |s| ==> r[j] == s[j]
  {
    r := s;
    var i := hi;
    while i > lo
      invariant lo <= i <= hi
      invariant |r| == |s|
      invariant forall j :: i < j <= hi ==> r[j] == s[j - 1]
      invariant forall j :: 0 <= j <= i || hi < j < |s| ==> r[j] == s[j]
    {
      r := r[i := r[i - 1]];
      i := i - 1;
    }
  }

  /** `for (; from < to; from++, at++) dest[at] = source[from]` */
  method CopyRun<T>(dest: seq<T>, at: int, source: seq<T>, from: int, to: int) returns (r: seq<T>, end: int)
    requires 0 <= from <= to <= |source| && 0 <= at && at + (to - from) <= |dest|
    ensures end == at + (to - from) && |r| == |dest|
    ensures forall j :: at <= j < end ==> r[j] == source[j - at + from]
    ensures forall j :: 0 <= j < at || end <= j < |dest| ==> r[j] == dest[j]
  {
    r := dest;
    end := at;
    var i := from;
    while i < to
      invariant from <= i <= to && end == at + (i - from)
      invariant |r| == |dest|
      invariant forall j :: at <= j < end ==> r[j] == source[j - at + from]
      invariant forall j :: 0 <= j < at || end <= j < |dest| ==> r[j] == dest[j]
    {
      r := r[end := source[i]];
      i := i + 1;
      end := end + 1;
    }
  }

  /** Copies `source[from..to]`, with `x` put in before index `at`, to the front of `dest`. */
  method SpreadRun<T>(dest: seq<T>, source: seq<T>, from: int, at: int, x: T, to: int, ghost whole: seq<T>)
    returns (r: seq<T>, end: int)
    requires 0 <= from <= at <= to <= |source| && to - from < |dest| && |whole| == to + 1
    requires forall i :: 0 <= i <= to ==> whole[i] == if i == at then x else source[if i < at then i else i - 1]
    ensures end == to - from + 1 && |r| == |dest|
    ensures forall j :: 0 <= j < end ==> r[j] == whole[from + j]
  {
    r, end := CopyRun(dest, 0, source, from, at);
    r := r[end := x];
    r, end := CopyRun(r, end + 1, source, at, to);
  }

  /** C division of a difference by two: truncates towards zero. */
  function HalfOf(n: int): (r: int)
    ensures r + r <= n + 1 && n - 1 <= r + r
    ensures n >= 0 ==> 0 <= r && r + r <= n
  {
    if n >= 0 then n / 2 else -((-n) / 2)
  }

  predicate Increasing(s: seq<int>) {
    forall i, j :: 0 <= i < j < |s| ==> s[i] < s[j]
  }

  /** The binary search of DS_BPlusTree.h:912-944: on a hit the index of the key, on a miss the
      index at which it would have to be inserted. */
  method GetIndexOf(key: int, page: Page) returns (found: bool, out: int)
    requires 0 < page.size <= |page.keys|
    requires Increasing(page.keys[..page.size])
    ensures found ==> 0 <= out < page.size && page.keys[out] == key
    ensures 0 <= out <= page.size
    ensures forall i :: 0 <= i < out ==> page.keys[i] < key
    ensures forall i :: out <= i < page.size && !(found && i == out) ==> key < page.keys[i]
  {
    var upperBound := page.size - 1;
    var lowerBound := 0;
    var index := page.size / 2;
    ghost var ks := page.keys[..page.size];
    while true
      invariant 0 <= lowerBound <= index <= upperBound < page.size
      invariant forall i :: 0 <= i < lowerBound ==> ks[i] < key
      invariant forall i :: upperBound < i < page.size ==> key < ks[i]
      decreases upperBound - lowerBound
    {
      if key == page.keys[index] {
        assert ks[index] == key;
        return true, index;
      } else if key < page.keys[index] {
        assert key < ks[index];
        upperBound := index - 1;
      } else {
        assert ks[index] < key;
        lowerBound := index + 1;
      }
      index := lowerBound + HalfOf(upperBound - lowerBound);
      if lowerBound > upperBound {
        assert forall i :: 0 <= i < lowerBound ==> page.keys[i] == ks[i];
        assert forall i :: lowerBound <= i < page.size ==> page.keys[i] == ks[i];
        return false, lowerBound;
      }
    }
  }
}
