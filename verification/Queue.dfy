/** The growing ring buffer of `DS_Queue.h`. */
module Queues {

  /** Where the k-th element lies in a ring of `n` cells that begins at `head`. */
  function Cell(head: nat, k: nat, n: nat): (c: nat)
    requires head < n && k < n
    ensures c < n
  {
    if head + k >= n then head + k - n else head + k
  }

  /** The elements of the ring, in order. */
  function Window<T>(a: seq<T>, head: nat, size: nat): (s: seq<T>)
    requires size == 0 || (head < |a| && size <= |a|)
    ensures |s| == size
    ensures forall k :: 0 <= k < size ==> s[k] == a[Cell(head, k, |a|)]
  {
    seq(size, k requires 0 <= k < size => a[Cell(head, k, |a|)])
  }

  predicate IsPowerOfTwo(n: nat) {
    n == 1 || (n > 1 && n % 2 == 0 && IsPowerOfTwo(n / 2))
  }

  lemma WindowUpdate<T>(a: seq<T>, head: nat, size: nat, k: nat, x: T)
    requires k < size <= |a| && head < |a|
    ensures Window(a[Cell(head, k, |a|) := x], head, size) == Window(a, head, size)[k := x]
  {
  }

  lemma WindowShorter<T>(a: seq<T>, head: nat, size: nat)
    requires size < |a| && head < |a|
    ensures Window(a, head, size) == Window(a, head, size + 1)[..size]
  {
  }

  class Queue<T(0)> {
    var array_: array<T>
    var head: nat
    var tail: nat

    ghost predicate Valid()
      reads this
    {
      if array_.Length == 0 then head == tail == 0 else head < array_.Length && tail < array_.Length
    }

    constructor ()
      ensures Valid() && Contents() == [] && fresh(array_)
    {
      array_ := new T[0];
      head, tail := 0, 0;
    }

    function Size(): (n: nat)
      requires Valid()
      reads this
      ensures array_.Length == 0 || n < array_.Length
    {
      if head <= tail then tail - head else array_.Length - head + tail
    }

    /** The queue as a plain sequence. */
    ghost function Contents(): (s: seq<T>)
      requires Valid()
      reads this, array_
      ensures |s| == Size()
    {
      Window(array_[..], head, Size())
    }

    predicate IsEmpty()
      requires Valid()
      reads this
      ensures IsEmpty() <==> Size() == 0
    {
      head == tail
    }

    method At(position: nat) returns (x: T)
      requires Valid() && position < Size()
      ensures x == Contents()[position]
    {
      if head + position >= array_.Length {
        x := array_[head + position - array_.Length];
      } else {
        x := array_[head + position];
      }
    }

    method Pop() returns (x: T)
      requires Valid() && !IsEmpty()
      modifies this`head
      ensures Valid() && x == old(Contents())[0] && Contents() == old(Contents())[1..]
    {
      ghost var before := Contents();
      head := head + 1;
      if head == array_.Length {
        head := 0;
      }
      if head == 0 {
        x := array_[array_.Length - 1];
      } else {
        x := array_[head - 1];
      }
      forall k | 0 <= k < Size() ensures Contents()[k] == before[k + 1] {
        assert Cell(head, k, array_.Length) == Cell(old(head), k + 1, array_.Length);
      }
      assert Contents() == before[1..];
    }

    method PopTail() returns (x: T)
      requires Valid() && !IsEmpty()
      modifies this`tail
      ensures Valid() && old(Contents()) == Contents() + [x]
    {
      ghost var before := Contents();
      if tail != 0 {
        tail := tail - 1;
        x := array_[tail];
      } else {
        tail := array_.Length - 1;
        x := array_[tail];
      }
      assert before == Contents() + [x];
    }

    /** Put an element behind the last, doubling the array when that fills it. */
    method Push(input: T)
      requires Valid()
      modifies this, array_
      ensures Valid() && Contents() == old(Contents()) + [input]
      ensures fresh(array_) || array_ == old(array_)
      ensures array_.Length == if old(array_.Length) == 0 then 16
                               else if old(Size()) + 1 == old(array_.Length) then 2 * old(array_.Length)
                               else old(array_.Length)
    {
      ghost var before := Contents();
      if array_.Length == 0 {
        array_ := new T[16];
        head := 0;
        tail := 1;
        array_[0] := input;
        assert Contents() == before + [input];
        return;
      }
      ghost var n := Size();
      assert tail == Cell(head, n, array_.Length);
      array_[tail] := input;
      tail := tail + 1;
      assert Window(array_[..], head, n + 1) == before + [input];
      if tail == array_.Length {
        tail := 0;
      }
      if tail == head {
        Grow(2 * array_.Length, array_.Length);
      }
    }

    /** Move the first `size` elements to the front of a larger array. */
    method Grow(newSize: nat, size: nat)
      requires head < array_.Length && size <= array_.Length && size < newSize
      modifies this
      ensures Valid() && Contents() == Window(old(array_[..]), old(head), size)
      ensures fresh(array_) && array_.Length == newSize
    {
      var newArray := new T[newSize];
      var counter := 0;
      while counter < size
        invariant 0 <= counter <= size && head == old(head) && array_ == old(array_)
        invariant forall k :: 0 <= k < counter ==> newArray[k] == array_[Cell(head, k, array_.Length)]
      {
        assert (head + counter) % array_.Length == Cell(head, counter, array_.Length) by {
          Modulo(head, counter, array_.Length);
        }
        newArray[counter] := array_[(head + counter) % array_.Length];
        counter := counter + 1;
      }
      head := 0;
      tail := size;
      array_ := newArray;
      assert Contents() == Window(old(array_[..]), old(head), size);
    }

    static lemma Modulo(head: nat, k: nat, n: nat)
      requires head < n && k < n
      ensures (head + k) % n == Cell(head, k, n)
    {
      hide Cell;
      var x := head + k;
      Remainder(x, n);
      CellIs(head, k, n);
    }

    static lemma Remainder(x: nat, n: nat)
      requires 0 < n && x < 2 * n
      ensures x % n == if x >= n then x - n else x
    {
      var q, r := x / n, x % n;
      assert x == q * n + r;
      assert (q - 2) * n == q * n - 2 * n;
      assert q == 1 ==> q * n == n;
    }

    static lemma CellIs(head: nat, k: nat, n: nat)
      requires head < n && k < n
      ensures Cell(head, k, n) == if head + k >= n then head + k - n else head + k
    {
    }

    /** Shrink the array to the least power of two above the size. */
    method Compress()
      requires Valid()
      modifies this
      ensures Valid() && Contents() == old(Contents())
      ensures old(array_.Length) == 0 ==> array_ == old(array_)
      ensures old(array_.Length) != 0 ==> fresh(array_) && old(Size()) < array_.Length
      ensures old(array_.Length) != 0 ==> IsPowerOfTwo(array_.Length) && array_.Length / 2 <= old(Size())
    {
      if array_.Length == 0 {
        return;
      }
      var newAllocationSize := 1;
      while newAllocationSize <= Size()
        invariant newAllocationSize / 2 <= Size() && IsPowerOfTwo(newAllocationSize)
        decreases Size() + 1 - newAllocationSize
      {
        newAllocationSize := 2 * newAllocationSize;
      }
      Grow(newAllocationSize, Size());
    }

    /** Write to a position of the queue. */
    method Put(position: nat, x: T)
      requires Valid() && position < Size()
      modifies array_
      ensures Valid() && Contents() == old(Contents())[position := x]
    {
      WindowUpdate(array_[..], head, Size(), position, x);
      ghost var cell := Cell(head, position, array_.Length);
      if head + position >= array_.Length {
        array_[head + position - array_.Length] := x;
      } else {
        array_[head + position] := x;
      }
      assert array_[..] == old(array_[..])[cell := x];
    }

    /** Put an element before the one at `index`, which with all behind it moves back by one. */
    method PushAtHead(input: T, index: nat)
      requires Valid() && index <= Size()
      modifies this, array_
      ensures Valid()
      ensures Contents() == old(Contents())[..index] + [input] + old(Contents())[index..]
      ensures fresh(array_) || array_ == old(array_)
      ensures array_.Length == if old(array_.Length) == 0 then 16
                               else if old(Size()) + 1 == old(array_.Length) then 2 * old(array_.Length)
                               else old(array_.Length)
    {
      ghost var before := Contents();
      Push(input);
      if Size() == 1 {
        return;
      }
      MoveBack(index, before, input);
      ghost var moved := Contents();
      Put(index, input);
      assert Contents() == before[..index] + [input] + before[index..];
    }

    /** The loop of PushAtHead. */
    method MoveBack(index: nat, ghost before: seq<T>, ghost input: T)
      requires Valid() && Size() >= 2 && index < Size() && Contents() == before + [input]
      modifies array_
      ensures Valid() && Size() == |before| + 1
      ensures forall k :: 0 <= k < index ==> Contents()[k] == before[k]
      ensures forall k :: index < k <= |before| ==> Contents()[k] == before[k - 1]
    {
      hide Cell, Window, Contents;
      var writeIndex := Size() - 1;
      var readIndex := writeIndex - 1;
      while readIndex >= index
        invariant 0 <= readIndex == writeIndex - 1 < Size() - 1 && index <= writeIndex
        invariant Valid() && Size() == |before| + 1
        invariant forall k :: 0 <= k < writeIndex ==> Contents()[k] == before[k]
        invariant forall k :: writeIndex < k <= |before| ==> Contents()[k] == before[k - 1]
        decreases readIndex
      {
        var x := At(readIndex);
        Put(writeIndex, x);
        if readIndex == 0 {
          break;
        }
        writeIndex := writeIndex - 1;
        readIndex := readIndex - 1;
      }
    }

    /** Remove the element at a position; out of range, nothing happens. */
    method RemoveAtIndex(position: nat)
      requires Valid()
      modifies this`tail, array_
      ensures Valid()
      ensures Contents() == if position < |old(Contents())|
                            then old(Contents())[..position] + old(Contents())[position + 1..]
                            else old(Contents())
    {
      hide Cell, Window;
      if head == tail || position >= Size() {
        return;
      }
      ghost var before := Contents();
      CloseGap(position);
      ghost var moved := Contents();
      if tail == 0 {
        tail := array_.Length - 1;
      } else {
        tail := tail - 1;
      }
      WindowShorter(array_[..], head, Size());
      assert Contents() == before[..position] + before[position + 1..];
    }

    /** The loop of RemoveAtIndex: move all elements behind the position forward by one. */
    method CloseGap(position: nat)
      requires Valid() && position < Size()
      modifies array_
      ensures Valid() && |Contents()| == |old(Contents())|
      ensures forall k :: 0 <= k < position ==> Contents()[k] == old(Contents())[k]
      ensures forall k :: position <= k < Size() - 1 ==> Contents()[k] == old(Contents())[k + 1]
    {
      hide Cell, Contents;
      ghost var before, n := Contents(), Size();
      CellIs(head, position, array_.Length);
      var index := if head + position >= array_.Length then head + position - array_.Length else head + position;
      var next := index + 1;
      if next == array_.Length {
        next := 0;
      }
      ghost var j := position;
      CellNext(head, j, array_.Length);
      CellIs(head, n, array_.Length);
      while next != tail
        invariant position <= j < n && index == Cell(head, j, array_.Length)
        invariant next == Cell(head, j + 1, array_.Length)
        invariant forall k :: 0 <= k < position ==> Contents()[k] == before[k]
        invariant forall k :: position <= k < j ==> Contents()[k] == before[k + 1]
        invariant forall k :: j <= k < n ==> Contents()[k] == before[k]
        decreases n - j
      {
        CellNext(head, j + 1, array_.Length);
        MoveForward(index, next, j);
        index := next;
        next := next + 1;
        if next == array_.Length {
          next := 0;
        }
        j := j + 1;
      }
      CellsApart(head, j + 1, n, array_.Length);
    }

    /** Overwrite an element with the next. */
    method MoveForward(index: nat, next: nat, ghost j: nat)
      requires Valid() && j + 1 < Size()
      requires index == Cell(head, j, array_.Length) && next == Cell(head, j + 1, array_.Length)
      modifies array_
      ensures Valid() && Contents() == old(Contents())[j := old(Contents())[j + 1]]
    {
      WindowUpdate(array_[..], head, Size(), j, array_[next]);
      array_[index] := array_[next];
      assert array_[..] == old(array_[..])[Cell(head, j, array_.Length) := old(array_[next])];
    }

    static lemma CellNext(head: nat, j: nat, n: nat)
      requires head < n && j + 1 < n
      ensures Cell(head, j + 1, n) == if Cell(head, j, n) + 1 == n then 0 else Cell(head, j, n) + 1
    {
    }

    static lemma CellsApart(head: nat, j: nat, k: nat, n: nat)
      requires head < n && j < n && k < n
      ensures Cell(head, j, n) == Cell(head, k, n) ==> j == k
    {
    }
  }
}
