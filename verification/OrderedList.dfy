/** The ordered list of `DS_OrderedList.h`.  `keyOf` plays the part of the comparison function. */
module OrderedLists {

  ghost predicate Increasing<D>(keyOf: D -> int, list: seq<D>) {
    forall i, j :: 0 <= i < j < |list| ==> keyOf(list[i]) < keyOf(list[j])
  }

  /** The binary search: where `key` is, or where it would go. */
  method GetIndexFromKey<D>(keyOf: D -> int, orderedList: seq<D>, key: int)
    returns (index: nat, objectExists: bool)
    requires Increasing(keyOf, orderedList)
    ensures index <= |orderedList|
    ensures forall i :: 0 <= i < index ==> keyOf(orderedList[i]) < key
    ensures forall i :: index <= i < |orderedList| ==> key <= keyOf(orderedList[i])
    ensures objectExists <==> exists i :: 0 <= i < |orderedList| && keyOf(orderedList[i]) == key
    ensures objectExists <==> index < |orderedList| && keyOf(orderedList[index]) == key
  {
    if |orderedList| == 0 {
      return 0, false;
    }
    var upperBound, lowerBound := |orderedList| - 1, 0;
    index := |orderedList| / 2;
    while true
      invariant 0 <= lowerBound <= index <= upperBound < |orderedList|
      invariant forall i :: 0 <= i < lowerBound ==> keyOf(orderedList[i]) < key
      invariant forall i :: upperBound < i < |orderedList| ==> key < keyOf(orderedList[i])
      decreases upperBound - lowerBound
    {
      if key == keyOf(orderedList[index]) {
        return index, true;
      } else if key < keyOf(orderedList[index]) {
        upperBound := index - 1;
      } else {
        lowerBound := index + 1;
      }
      if lowerBound > upperBound {
        return lowerBound, false;
      }
      index := lowerBound + (upperBound - lowerBound) / 2;
    }
  }

  // ----- inserting and removing -----

  /** The list without the element of `key`, if there is one. */
  ghost function WithoutKey<D>(keyOf: D -> int, list: seq<D>, key: int): seq<D> {
    if list == [] then []
    else (if keyOf(list[0]) == key then [] else [list[0]]) + WithoutKey(keyOf, list[1..], key)
  }

  lemma {:induction false} WithoutNothing<D>(keyOf: D -> int, list: seq<D>, key: int)
    requires forall i :: 0 <= i < |list| ==> keyOf(list[i]) != key
    ensures WithoutKey(keyOf, list, key) == list
  {
    if list != [] {
      WithoutNothing(keyOf, list[1..], key);
    }
  }

  /** Of a list in order, one element at most has the key. */
  lemma {:induction false} WithoutOne<D>(keyOf: D -> int, list: seq<D>, i: nat)
    requires Increasing(keyOf, list) && i < |list|
    ensures WithoutKey(keyOf, list, keyOf(list[i])) == list[..i] + list[i + 1..]
  {
    if i == 0 {
      WithoutNothing(keyOf, list[1..], keyOf(list[0]));
    } else {
      WithoutOne(keyOf, list[1..], i - 1);
      assert list[1..][..i - 1] == list[1..i] && list[1..][i..] == list[i + 1..];
      assert list[..i] == [list[0]] + list[1..i];
    }
  }

  /** An insertion is undone by removing the key. */
  lemma RemoveUndoesInsert<D>(keyOf: D -> int, list: seq<D>, i: nat, data: D)
    requires i <= |list| && Increasing(keyOf, list[..i] + [data] + list[i..])
    ensures WithoutKey(keyOf, list[..i] + [data] + list[i..], keyOf(data)) == list
  {
    WithoutOne(keyOf, list[..i] + [data] + list[i..], i);
  }

  class OrderedList<D> {
    const keyOf: D -> int
    var orderedList: seq<D>

    ghost predicate Valid()
      reads this
    {
      Increasing(keyOf, orderedList)
    }

    constructor (keyOf: D -> int)
      ensures Valid() && orderedList == [] && this.keyOf == keyOf
    {
      this.keyOf := keyOf;
      orderedList := [];
    }

    /** Put an element where it belongs, unless there is one of its key: then the answer is -1. */
    method Insert(key: int, data: D) returns (index: int)
      requires Valid() && keyOf(data) == key
      modifies this`orderedList
      ensures Valid()
      ensures index == -1 <==> exists i :: 0 <= i < |old(orderedList)| && keyOf(old(orderedList)[i]) == key
      ensures index == -1 ==> orderedList == old(orderedList)
      ensures index != -1 ==> 0 <= index <= |old(orderedList)| &&
                              orderedList == old(orderedList)[..index] + [data] + old(orderedList)[index..]
    {
      var at, objectExists := GetIndexFromKey(keyOf, orderedList, key);
      if objectExists {
        return -1;
      }
      if at >= |orderedList| {
        orderedList := orderedList + [data];
        return |orderedList| - 1;
      } else {
        orderedList := orderedList[..at] + [data] + orderedList[at..];
        return at;
      }
    }

    /** Take out the element of a key; without one, nothing happens. */
    method Remove(key: int) returns (index: nat)
      requires Valid()
      modifies this`orderedList
      ensures Valid() && orderedList == WithoutKey(keyOf, old(orderedList), key)
      ensures if exists i :: 0 <= i < |old(orderedList)| && keyOf(old(orderedList)[i]) == key
              then index < |old(orderedList)| && keyOf(old(orderedList)[index]) == key
              else index == 0
    {
      var objectExists;
      index, objectExists := GetIndexFromKey(keyOf, orderedList, key);
      if !objectExists {
        WithoutNothing(keyOf, orderedList, key);
        return 0;
      }
      WithoutOne(keyOf, orderedList, index);
      orderedList := orderedList[..index] + orderedList[index + 1..];
    }
  }

  // ----- lists of plain keys, each its own element -----

  function Itself(key: int): int { key }

  lemma HasLeast(s: set<int>)
    requires s != {}
    ensures exists m :: m in s && forall k :: k in s ==> m <= k
  {
    if forall x :: x !in s {
      assert false;
    }
    var x :| x in s;
    var rest := s - {x};
    assert forall k :: k in s && k != x ==> k in rest;
    if rest != {} {
      HasLeast(rest);
      var m :| m in rest && forall k :: k in rest ==> m <= k;
      assert (if m <= x then m else x) in s;
    }
  }

  function Least(keys: set<int>): (m: int)
    requires keys != {}
    ensures m in keys && forall k :: k in keys ==> m <= k
  {
    HasLeast(keys);
    var m :| m in keys && forall k :: k in keys ==> m <= k;
    m
  }

  /** The keys in increasing order: the order in which a map of `DS_Map.h` is indexed. */
  function InOrder(keys: set<int>): (r: seq<int>)
    ensures |r| == |keys|
    ensures forall i, j :: 0 <= i < j < |r| ==> r[i] < r[j]
    ensures forall k :: k in r <==> k in keys
  {
    if keys == {} then []
    else [Least(keys)] + InOrder(keys - {Least(keys)})
  }

  /** The first `n` keys of a list. */
  ghost function FirstOf(list: seq<int>, n: nat): set<int>
    requires n <= |list|
  {
    set i | 0 <= i < n :: list[i]
  }

  /** Listing the keys one by one. */
  lemma ListingKeys(keys: set<int>, n: nat)
    requires n <= |InOrder(keys)|
    ensures FirstOf(InOrder(keys), 0) == {}
    ensures FirstOf(InOrder(keys), |InOrder(keys)|) == keys
    ensures n < |InOrder(keys)| ==>
              && InOrder(keys)[n] in keys
              && InOrder(keys)[n] !in FirstOf(InOrder(keys), n)
              && FirstOf(InOrder(keys), n + 1) == FirstOf(InOrder(keys), n) + {InOrder(keys)[n]}
  {
    hide InOrder;
    var r := InOrder(keys);
    forall k | k in keys ensures k in FirstOf(r, |r|) {
      assert k in r;
    }
    forall k | k in FirstOf(r, |r|) ensures k in keys {
      assert k in r;
    }
    if n < |r| {
      assert r[n] in r;
    }
  }

  /** The position of a key that is there. */
  method IndexOf(keys: seq<int>, key: int) returns (index: nat)
    requires forall i, j :: 0 <= i < j < |keys| ==> keys[i] < keys[j]
    requires key in keys
    ensures index < |keys| && keys[index] == key
  {
    var objectExists;
    index, objectExists := GetIndexFromKey(Itself, keys, key);
    var i :| 0 <= i < |keys| && keys[i] == key;
    assert Itself(keys[i]) == key;
  }
}
