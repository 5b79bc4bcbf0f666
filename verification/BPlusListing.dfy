/** Sorted listings of bindings, and the finite maps they stand for. */
module BPlusListing {

  datatype Entry = Entry(key: int, data: int)

  ghost predicate Sorted(s: seq<Entry>) {
    forall i, j :: 0 <= i < j < |s| ==> s[i].key < s[j].key
  }

  ghost predicate Absent(s: seq<Entry>, key: int) {
    forall i :: 0 <= i < |s| ==> s[i].key != key
  }

  /** The listing without the bindings of `key`. */
  ghost function Without(s: seq<Entry>, key: int): seq<Entry> {
    if s == [] then [] else (if s[0].key == key then [] else [s[0]]) + Without(s[1..], key)
  }

  /** The listing with a binding put before the first key that is not smaller. */
  ghost function With(s: seq<Entry>, e: Entry): seq<Entry> {
    if s == [] || e.key <= s[0].key then [e] + s else [s[0]] + With(s[1..], e)
  }

  /** The finite map that a listing stands for. */
  ghost function MapOf(s: seq<Entry>): map<int, int> {
    if s == [] then map[] else MapOf(s[1..])[s[0].key := s[0].data]
  }

  lemma {:induction false} WithoutConcat(a: seq<Entry>, b: seq<Entry>, key: int)
    ensures Without(a + b, key) == Without(a, key) + Without(b, key)
  {
    if a == [] {
      assert a + b == b;
    } else {
      assert (a + b)[1..] == a[1..] + b;
      WithoutConcat(a[1..], b, key);
    }
  }

  lemma {:induction false} WithoutAbsent(s: seq<Entry>, key: int)
    requires Absent(s, key)
    ensures Without(s, key) == s
  {
    if s != [] {
      assert forall i :: 0 <= i < |s| - 1 ==> s[1..][i] == s[i + 1];
      WithoutAbsent(s[1..], key);
    }
  }

  /** `a` lies entirely below `b`. */
  ghost predicate Below(a: seq<Entry>, b: seq<Entry>) {
    forall i, j :: 0 <= i < |a| && 0 <= j < |b| ==> a[i].key < b[j].key
  }

  lemma SortedConcat(a: seq<Entry>, b: seq<Entry>)
    ensures Sorted(a + b) <==> Sorted(a) && Sorted(b) && Below(a, b)
  {
    var c := a + b;
    assert forall i :: 0 <= i < |a| ==> c[i] == a[i];
    assert forall i :: 0 <= i < |b| ==> c[|a| + i] == b[i];
  }

  lemma SortedThree(a: seq<Entry>, m: seq<Entry>, c: seq<Entry>)
    requires Sorted(a + m + c)
    ensures Sorted(a) && Sorted(m) && Sorted(c) && Below(a, m) && Below(m, c)
  {
    SortedConcat(a + m, c);
    SortedConcat(a, m);
    assert forall i :: 0 <= i < |m| ==> (a + m)[|a| + i] == m[i];
  }

  /** Removing a key that can only be in the middle part. */
  lemma WithoutInside(a: seq<Entry>, m: seq<Entry>, c: seq<Entry>, key: int)
    requires Absent(a, key) && Absent(c, key)
    ensures Without(a + m + c, key) == a + Without(m, key) + c
  {
    WithoutConcat(a + m, c, key);
    WithoutConcat(a, m, key);
    WithoutAbsent(a, key);
    WithoutAbsent(c, key);
  }

  lemma AbsentAround(s: seq<Entry>, i: nat)
    requires Sorted(s) && i < |s|
    ensures Absent(s[..i], s[i].key) && Absent(s[i + 1..], s[i].key)
  {
  }

  /** The key at one index of a sorted listing is the only one removed. */
  lemma WithoutAt(s: seq<Entry>, i: nat)
    requires Sorted(s) && i < |s|
    ensures Without(s, s[i].key) == s[..i] + s[i + 1..]
  {
    hide Sorted, Absent;
    var a, m, c := s[..i], [s[i]], s[i + 1..];
    assert s == a + m + c;
    AbsentAround(s, i);
    WithoutInside(a, m, c, s[i].key);
    assert Without(m, s[i].key) == [];
    assert a + [] == a;
  }

  /** Removing another key than the least keeps the least. */
  lemma WithoutFirst(s: seq<Entry>, key: int)
    requires s != [] && s[0].key != key
    ensures Without(s, key) != [] && Without(s, key)[0] == s[0]
  {
  }

  lemma {:induction false} WithInside(a: seq<Entry>, m: seq<Entry>, e: Entry)
    requires forall i :: 0 <= i < |a| ==> a[i].key < e.key
    ensures With(a + m, e) == a + With(m, e)
  {
    if a == [] {
      assert a + m == m;
    } else {
      assert (a + m)[1..] == a[1..] + m;
      WithInside(a[1..], m, e);
    }
  }

  lemma {:induction false} WithBefore(m: seq<Entry>, c: seq<Entry>, e: Entry)
    requires c != [] ==> e.key <= c[0].key
    ensures With(m + c, e) == With(m, e) + c
  {
    if m == [] {
      assert m + c == c;
    } else {
      assert (m + c)[1..] == m[1..] + c;
      WithBefore(m[1..], c, e);
    }
  }

  lemma WithFirst(s: seq<Entry>, e: Entry)
    requires s != [] && s[0].key < e.key
    ensures With(s, e) != [] && With(s, e)[0] == s[0]
  {
  }

  /** Adding a binding whose key lies between the outer parts. */
  lemma WithThree(a: seq<Entry>, m: seq<Entry>, c: seq<Entry>, e: Entry)
    requires forall i :: 0 <= i < |a| ==> a[i].key < e.key
    requires forall i :: 0 <= i < |c| ==> e.key < c[i].key
    ensures With(a + m + c, e) == a + With(m, e) + c
  {
    WithBefore(a + m, c, e);
    WithInside(a, m, e);
  }

  lemma WithAt(s: seq<Entry>, i: nat, e: Entry)
    requires i <= |s|
    requires forall j :: 0 <= j < i ==> s[j].key < e.key
    requires forall j :: i <= j < |s| ==> e.key <= s[j].key
    ensures With(s, e) == s[..i] + [e] + s[i..]
  {
    assert s == s[..i] + s[i..];
    WithInside(s[..i], s[i..], e);
  }

  lemma WithoutSorted(s: seq<Entry>, key: int)
    requires Sorted(s)
    ensures Sorted(Without(s, key))
    ensures Absent(Without(s, key), key)
    ensures Absent(s, key) ==> Without(s, key) == s
  {
    if i :| 0 <= i < |s| && s[i].key == key {
      WithoutAt(s, i);
    } else {
      WithoutAbsent(s, key);
    }
  }

  lemma {:induction false} WithSorted(s: seq<Entry>, e: Entry)
    requires Sorted(s) && Absent(s, e.key)
    ensures Sorted(With(s, e))
    ensures forall x :: x in With(s, e) <==> x == e || x in s
    ensures |With(s, e)| == |s| + 1
  {
    if s != [] && s[0].key < e.key {
      WithSorted(s[1..], e);
      var w := With(s[1..], e);
      assert forall x :: x in s <==> x == s[0] || x in s[1..];
      forall j | 0 <= j < |w| ensures s[0].key < w[j].key {
        assert w[j] in w;
      }
    }
  }

  lemma SortedTail(s: seq<Entry>)
    requires Sorted(s) && s != []
    ensures Sorted(s[1..]) && Absent(s[1..], s[0].key)
  {
    assert forall i :: 0 <= i < |s| - 1 ==> s[1..][i] == s[i + 1];
  }

  /** A sorted listing is the graph of its map. */
  lemma {:induction false} MapOfSorted(s: seq<Entry>)
    requires Sorted(s)
    ensures forall k :: k in MapOf(s) ==> Entry(k, MapOf(s)[k]) in s
    ensures forall i :: 0 <= i < |s| ==> s[i].key in MapOf(s) && MapOf(s)[s[i].key] == s[i].data
    ensures |MapOf(s)| == |s|
  {
    if s != [] {
      SortedTail(s);
      MapOfSorted(s[1..]);
      MapOfAbsent(s[1..], s[0].key);
      forall i | 0 <= i < |s| ensures s[i].key in MapOf(s) && MapOf(s)[s[i].key] == s[i].data {
        if i > 0 {
          assert s[1..][i - 1] == s[i];
        }
      }
    }
  }

  lemma {:induction false} MapOfAbsent(s: seq<Entry>, key: int)
    ensures key in MapOf(s) <==> !Absent(s, key)
  {
    if s != [] {
      MapOfAbsent(s[1..], key);
      assert forall i :: 0 <= i < |s| - 1 ==> s[1..][i] == s[i + 1];
    }
  }

  /** Removing from the listing is removing from the map. */
  lemma {:induction false} MapOfWithout(s: seq<Entry>, key: int)
    requires Sorted(s)
    ensures MapOf(Without(s, key)) == MapOf(s) - {key}
  {
    if s != [] {
      SortedTail(s);
      MapOfWithout(s[1..], key);
      MapOfAbsent(s[1..], s[0].key);
      var rest := Without(s[1..], key);
      if s[0].key == key {
        assert Without(s, key) == rest;
        assert MapOf(rest) == MapOf(s[1..]) - {key} == MapOf(s) - {key};
      } else {
        assert Without(s, key) == [s[0]] + rest;
        assert ([s[0]] + rest)[1..] == rest;
      }
    }
  }

  /** Adding to the listing is adding to the map. */
  lemma {:induction false} MapOfWith(s: seq<Entry>, e: Entry)
    requires Absent(s, e.key)
    ensures MapOf(With(s, e)) == MapOf(s)[e.key := e.data]
  {
    if s == [] || e.key <= s[0].key {
      assert ([e] + s)[1..] == s;
    } else {
      assert forall i :: 0 <= i < |s| - 1 ==> s[1..][i] == s[i + 1];
      var rest := With(s[1..], e);
      MapOfWith(s[1..], e);
      assert ([s[0]] + rest)[1..] == rest;
    }
  }
}
