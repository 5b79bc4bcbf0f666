/** The range list of `DS_RangeList.h`: a set of integers kept as ranges, and its bounded serialisation. */
module RangeLists {

  import opened Powers
  import opened OrderedLists

  datatype RangeNode = RangeNode(minIndex: int, maxIndex: int)

  function MinOf(r: RangeNode): int { r.minIndex }

  /** What every range list is: proper ranges, their lower ends increasing. */
  ghost predicate Kept(s: seq<RangeNode>) {
    && (forall i :: 0 <= i < |s| ==> s[i].minIndex <= s[i].maxIndex)
    && (forall i, j :: 0 <= i < j < |s| ==> s[i].minIndex < s[j].minIndex)
  }

  ghost predicate InRange(r: RangeNode, x: int) {
    r.minIndex <= x <= r.maxIndex
  }

  /** The set a list stands for. */
  ghost predicate Covers(s: seq<RangeNode>, x: int) {
    exists i :: 0 <= i < |s| && InRange(s[i], x)
  }

  ghost predicate Disjoint(s: seq<RangeNode>) {
    forall i, j :: 0 <= i < j < |s| ==> s[i].maxIndex < s[j].minIndex
  }

  function Sum(s: seq<RangeNode>): int {
    if s == [] then 0 else Sum(s[..|s| - 1]) + s[|s| - 1].maxIndex - s[|s| - 1].minIndex + 1
  }

  // ----- inserting -----

  /** Where inserting changes the list, `at` being the first range that does not begin before `x`: the ranges
      taken out from `at` or before it, and those put in. */
  function Taken(s: seq<RangeNode>, x: int, at: nat): (r: (nat, seq<RangeNode>, seq<RangeNode>))
    requires at <= |s|
    ensures r.0 + |r.1| <= |s|
  {
    if at == |s| then
      if at > 0 && x == s[at - 1].maxIndex + 1 then (at - 1, [s[at - 1]], [s[at - 1].(maxIndex := x)])
      else if at == 0 || x > s[at - 1].maxIndex + 1 then (at, [], [RangeNode(x, x)])
      else (at, [], [])
    else if x < s[at].minIndex - 1 then (at, [], [RangeNode(x, x)])
    else if x == s[at].minIndex - 1 then
      if at > 0 && s[at - 1].maxIndex + 1 == x then
        (at - 1, [s[at - 1], s[at]], [RangeNode(s[at - 1].minIndex, s[at].maxIndex)])
      else (at, [s[at]], [s[at].(minIndex := x)])
    else (at, [], [])
  }

  /** The list with `x` inserted. */
  function InsertedAt(s: seq<RangeNode>, x: int, at: nat): seq<RangeNode>
    requires at <= |s|
  {
    var (i, old_, new_) := Taken(s, x, at);
    s[..i] + new_ + s[i + |old_|..]
  }

  ghost predicate Splits(s: seq<RangeNode>, x: int, at: nat) {
    && at <= |s|
    && (forall i :: 0 <= i < at ==> s[i].minIndex < x)
    && (forall i :: at <= i < |s| ==> x <= s[i].minIndex)
  }

  // ----- putting lists together -----

  lemma CoversJoin(a: seq<RangeNode>, b: seq<RangeNode>, y: int)
    ensures Covers(a + b, y) <==> Covers(a, y) || Covers(b, y)
  {
    if Covers(a, y) {
      var i :| 0 <= i < |a| && InRange(a[i], y);
      assert InRange((a + b)[i], y);
    }
    if Covers(b, y) {
      var i :| 0 <= i < |b| && InRange(b[i], y);
      assert InRange((a + b)[|a| + i], y);
    }
  }

  lemma CoversOne(r: RangeNode, y: int)
    ensures Covers([r], y) <==> InRange(r, y)
  {
    assert [r][0] == r;
  }

  lemma {:induction false} SumJoin(a: seq<RangeNode>, b: seq<RangeNode>)
    ensures Sum(a + b) == Sum(a) + Sum(b)
  {
    if b == [] {
      assert a + b == a;
    } else {
      SumJoin(a, b[..|b| - 1]);
      assert (a + b)[..|a + b| - 1] == a + b[..|b| - 1];
    }
  }

  /** Ranges in the middle of a list exchanged for others: what that does to the set and to the sum. */
  lemma Exchange(a: seq<RangeNode>, old_: seq<RangeNode>, new_: seq<RangeNode>, b: seq<RangeNode>, y: int)
    ensures Covers(a + old_ + b, y) <==> Covers(a, y) || Covers(old_, y) || Covers(b, y)
    ensures Covers(a + new_ + b, y) <==> Covers(a, y) || Covers(new_, y) || Covers(b, y)
    ensures Sum(a + new_ + b) - Sum(a + old_ + b) == Sum(new_) - Sum(old_)
  {
    CoversJoin(a, old_, y);
    CoversJoin(a + old_, b, y);
    CoversJoin(a, new_, y);
    CoversJoin(a + new_, b, y);
    SumJoin(a, old_);
    SumJoin(a + old_, b);
    SumJoin(a, new_);
    SumJoin(a + new_, b);
  }

  /** The same, branch by branch. */
  lemma InsertedForms(s: seq<RangeNode>, x: int, at: nat)
    requires at <= |s|
    ensures var t := InsertedAt(s, x, at);
      if at == |s| then
        if at > 0 && x == s[at - 1].maxIndex + 1 then t == s[at - 1 := s[at - 1].(maxIndex := x)]
        else if at == 0 || x > s[at - 1].maxIndex + 1 then t == s + [RangeNode(x, x)]
        else t == s
      else if x < s[at].minIndex - 1 then t == s[..at] + [RangeNode(x, x)] + s[at..]
      else if x > s[at].minIndex - 1 then t == s
      else if at > 0 && s[at - 1].maxIndex + 1 == x then
        t == s[..at - 1] + [RangeNode(s[at - 1].minIndex, s[at].maxIndex)] + s[at + 1..]
      else t == s[at := s[at].(minIndex := x)]
  {
    TakenFrom(s, x, at);
  }

  lemma TakenFrom(s: seq<RangeNode>, x: int, at: nat)
    requires at <= |s|
    ensures var (i, old_, new_) := Taken(s, x, at); s == s[..i] + old_ + s[i + |old_|..]
  {
    var (i, old_, new_) := Taken(s, x, at);
    assert s[i..i + |old_|] == old_;
  }

  /** Inserting adds exactly `x` to the set; the sum grows by one if a range grows or is made. */
  lemma InsertCovers(s: seq<RangeNode>, x: int, at: nat, y: int)
    requires Kept(s) && Splits(s, x, at)
    ensures Covers(InsertedAt(s, x, at), y) <==> Covers(s, y) || y == x
    ensures !Covers(s, x) ==> Sum(InsertedAt(s, x, at)) == Sum(s) + 1
  {
    hide Taken, Covers, Sum, Kept;
    var (i, old_, new_) := Taken(s, x, at);
    Exchange(s[..i], old_, new_, s[i + |old_|..], y);
    TakenFrom(s, x, at);
    TakenCovers(s, x, at, y);
  }

  lemma TakenCovers(s: seq<RangeNode>, x: int, at: nat, y: int)
    requires Kept(s) && Splits(s, x, at)
    ensures var (i, old_, new_) := Taken(s, x, at);
            if new_ == [] then old_ == [] && Covers(s, x)
            else (Covers(new_, y) <==> Covers(old_, y) || y == x) && Sum(new_) == Sum(old_) + 1
  {
    var (i, old_, new_) := Taken(s, x, at);
    if new_ == [] {
      assert InRange(s[if at == |s| then at - 1 else at], x);
    } else {
      CoversOne(new_[0], y);
      if |old_| == 1 {
        CoversOne(old_[0], y);
      } else if |old_| == 2 {
        CoversOne(old_[0], y);
        CoversOne(old_[1], y);
        CoversJoin([old_[0]], [old_[1]], y);
        SumJoin([old_[0]], [old_[1]]);
        assert old_ == [old_[0]] + [old_[1]];
      }
    }
  }

  /** One range put for some neighbouring ones. */
  lemma KeptPut(s: seq<RangeNode>, i: nat, j: nat, r: RangeNode)
    requires i <= j <= |s| && Kept(s) && r.minIndex <= r.maxIndex
    requires forall k :: 0 <= k < i ==> s[k].minIndex < r.minIndex
    requires forall k :: j <= k < |s| ==> r.minIndex < s[k].minIndex
    ensures Kept(s[..i] + [r] + s[j..])
  {
    var t := s[..i] + [r] + s[j..];
    assert forall k :: 0 <= k < |t| ==> t[k] == if k < i then s[k] else if k == i then r else s[k - i - 1 + j];
  }

  lemma DisjointPut(s: seq<RangeNode>, i: nat, j: nat, r: RangeNode)
    requires i <= j <= |s| && Kept(s) && Disjoint(s) && r.minIndex <= r.maxIndex
    requires forall k :: 0 <= k < i ==> s[k].maxIndex < r.minIndex
    requires forall k :: j <= k < |s| ==> r.maxIndex < s[k].minIndex
    ensures Disjoint(s[..i] + [r] + s[j..])
  {
    var t := s[..i] + [r] + s[j..];
    assert forall k :: 0 <= k < |t| ==> t[k] == if k < i then s[k] else if k == i then r else s[k - i - 1 + j];
  }

  lemma NothingPut(s: seq<RangeNode>, x: int, at: nat)
    requires at <= |s| && Taken(s, x, at).2 == []
    ensures InsertedAt(s, x, at) == s
  {
    TakenFrom(s, x, at);
  }

  /** What is put in lies between what stays. */
  lemma PutBetween(s: seq<RangeNode>, x: int, at: nat)
    requires Kept(s) && Splits(s, x, at) && Taken(s, x, at).2 != []
    ensures var (i, old_, new_) := Taken(s, x, at);
      && |new_| == 1 && new_[0].minIndex <= new_[0].maxIndex
      && (forall k :: 0 <= k < i ==> s[k].minIndex < new_[0].minIndex)
      && (forall k :: i + |old_| <= k < |s| ==> new_[0].minIndex < s[k].minIndex)
  {
  }

  lemma InsertKeeps(s: seq<RangeNode>, x: int, at: nat)
    requires Kept(s) && Splits(s, x, at)
    ensures Kept(InsertedAt(s, x, at))
  {
    hide Taken, Kept;
    var (i, old_, new_) := Taken(s, x, at);
    if new_ == [] {
      NothingPut(s, x, at);
    } else {
      PutBetween(s, x, at);
      assert new_ == [new_[0]];
      KeptPut(s, i, i + |old_|, new_[0]);
    }
  }

  /** Is `x` in a range, but neither its lower end nor in the last one? */
  ghost predicate InsideEarlier(s: seq<RangeNode>, x: int) {
    exists i :: 0 <= i < |s| - 1 && s[i].minIndex < x <= s[i].maxIndex
  }

  lemma InsertKeepsDisjoint(s: seq<RangeNode>, x: int, at: nat)
    requires Kept(s) && Splits(s, x, at) && Disjoint(s) && !InsideEarlier(s, x)
    ensures Disjoint(InsertedAt(s, x, at))
  {
    hide Disjoint, Taken, Kept, InsideEarlier;
    var (i, old_, new_) := Taken(s, x, at);
    TakenApart(s, x, at);
    if new_ == [] {
      NothingPut(s, x, at);
    } else {
      assert new_ == [new_[0]];
      DisjointPut(s, i, i + |old_|, new_[0]);
    }
  }

  /** What is put in lies between what is left. */
  lemma TakenApart(s: seq<RangeNode>, x: int, at: nat)
    requires Kept(s) && Splits(s, x, at) && Disjoint(s) && !InsideEarlier(s, x)
    ensures at <= |s|
    ensures var (i, old_, new_) := Taken(s, x, at);
            new_ != [] ==>
              && |new_| == 1 && new_[0].minIndex <= new_[0].maxIndex
              && (forall k :: 0 <= k < i ==> s[k].maxIndex < new_[0].minIndex)
              && (forall k :: i + |old_| <= k < |s| ==> new_[0].maxIndex < s[k].minIndex)
  {
    if 0 < at < |s| {
      assert s[at - 1].maxIndex < x;
    }
  }

  /** Inserting keeps disjoint ranges disjoint exactly when the new element is not inside a range that is
      not the last, above its lower end: the left neighbour is never looked at. */
  lemma InsertDisjoint(s: seq<RangeNode>, x: int, at: nat)
    requires Kept(s) && Splits(s, x, at) && Disjoint(s)
    ensures Disjoint(InsertedAt(s, x, at)) <==> !InsideEarlier(s, x)
  {
    if InsideEarlier(s, x) {
      var t := InsertedAt(s, x, at);
      var k :| 0 <= k < |s| - 1 && s[k].minIndex < x <= s[k].maxIndex;
      assert k == at - 1 && at < |s|;
      assert t[k] == s[k] && t[at].minIndex == x;
    } else {
      InsertKeepsDisjoint(s, x, at);
    }
  }

  /** One range holds both integers and all between them. */
  ghost predicate Together(s: seq<RangeNode>, a: int, b: int) {
    exists i :: 0 <= i < |s| && s[i].minIndex <= a && b <= s[i].maxIndex
  }

  /** Which neighbouring integers come to lie in one range when `x`, which is not there, is inserted: `x` joins the
      range that begins behind it, always; the range that ends before it, if it joins one behind it too or that is the
      last range; and no other two integers are joined or parted. */
  lemma InsertJoins(s: seq<RangeNode>, x: int, at: nat, y: int)
    requires Kept(s) && Disjoint(s) && Splits(s, x, at) && !Covers(s, x)
    ensures Together(InsertedAt(s, x, at), x, x + 1) <==> Covers(s, x + 1)
    ensures Together(InsertedAt(s, x, at), x - 1, x) <==> Covers(s, x - 1) && (at == |s| || Covers(s, x + 1))
    ensures Together(InsertedAt(s, x, at), x - 1, x + 1) <==> Covers(s, x - 1) && Covers(s, x + 1)
    ensures y != x - 1 && y != x ==> (Together(InsertedAt(s, x, at), y, y + 1) <==> Together(s, y, y + 1))
  {
    hide Kept, Disjoint, Covers, Together, Taken;
    var (i, old_, new_) := Taken(s, x, at);
    TakenFrom(s, x, at);
    BesideNew(s, x, at);
    TakenTogether(s, x, at, y);
    JoinedParts(s[..i], old_, new_, s[i + |old_|..], x, x + 1);
    JoinedParts(s[..i], old_, new_, s[i + |old_|..], x - 1, x);
    JoinedParts(s[..i], old_, new_, s[i + |old_|..], x - 1, x + 1);
    JoinedParts(s[..i], old_, new_, s[i + |old_|..], y, y + 1);
  }

  lemma JoinedParts(left: seq<RangeNode>, old_: seq<RangeNode>, new_: seq<RangeNode>, right: seq<RangeNode>,
                    a: int, b: int)
    ensures Together(left + old_ + right, a, b) <==>
            Together(left, a, b) || Together(old_, a, b) || Together(right, a, b)
    ensures Together(left + new_ + right, a, b) <==>
            Together(left, a, b) || Together(new_, a, b) || Together(right, a, b)
  {
    hide Together;
    EitherTogether(left + old_, right, a, b);
    EitherTogether(left, old_, a, b);
    EitherTogether(left + new_, right, a, b);
    EitherTogether(left, new_, a, b);
  }

  lemma EitherTogether(s: seq<RangeNode>, t: seq<RangeNode>, a: int, b: int)
    ensures Together(s + t, a, b) <==> Together(s, a, b) || Together(t, a, b)
  {
    if i :| 0 <= i < |s| && s[i].minIndex <= a && b <= s[i].maxIndex {
      assert (s + t)[i] == s[i];
    }
    if i :| 0 <= i < |t| && t[i].minIndex <= a && b <= t[i].maxIndex {
      assert (s + t)[|s| + i] == t[i];
    }
  }

  /** Where an integer that is not there would go: what is before ends before it, what is behind begins behind it. */
  lemma BesideNew(s: seq<RangeNode>, x: int, at: nat)
    requires Kept(s) && Disjoint(s) && Splits(s, x, at) && !Covers(s, x)
    ensures forall i :: 0 <= i < |s| ==> s[i].minIndex <= s[i].maxIndex
    ensures forall i :: 0 <= i < at ==> s[i].maxIndex < x
    ensures forall i :: at <= i < |s| ==> x < s[i].minIndex
    ensures Covers(s, x + 1) <==> at < |s| && s[at].minIndex == x + 1
    ensures Covers(s, x - 1) <==> at > 0 && s[at - 1].maxIndex == x - 1
  {
    forall i | 0 <= i < |s| ensures !InRange(s[i], x) {
    }
    if at < |s| && s[at].minIndex == x + 1 {
      assert InRange(s[at], x + 1);
    }
    if at > 0 && s[at - 1].maxIndex == x - 1 {
      assert InRange(s[at - 1], x - 1);
    }
  }

  /** What the ranges taken out and put in hold together, and what those beside them do not. */
  lemma TakenTogether(s: seq<RangeNode>, x: int, at: nat, y: int)
    requires at <= |s| && forall i :: 0 <= i < |s| ==> s[i].minIndex <= s[i].maxIndex
    requires forall i :: 0 <= i < at ==> s[i].maxIndex < x
    requires forall i :: at <= i < |s| ==> x < s[i].minIndex
    ensures var (i, old_, new_) := Taken(s, x, at);
            var left, right := s[..i], s[i + |old_|..];
            && !Together(left, x, x + 1) && !Together(right, x, x + 1)
            && !Together(left, x - 1, x) && !Together(right, x - 1, x)
            && !Together(left, x - 1, x + 1) && !Together(right, x - 1, x + 1)
    ensures var (i, old_, new_) := Taken(s, x, at);
            var before, behind := at > 0 && s[at - 1].maxIndex == x - 1, at < |s| && s[at].minIndex == x + 1;
            && (Together(new_, x, x + 1) <==> behind)
            && (Together(new_, x - 1, x) <==> before && (at == |s| || behind))
            && (Together(new_, x - 1, x + 1) <==> before && behind)
            && (y != x - 1 && y != x ==> (Together(new_, y, y + 1) <==> Together(old_, y, y + 1)))
  {
    hide Together;
    var (i, old_, new_) := Taken(s, x, at);
    SidesApart(s[..i], s[i + |old_|..], x, x, x + 1);
    SidesApart(s[..i], s[i + |old_|..], x, x - 1, x);
    SidesApart(s[..i], s[i + |old_|..], x, x - 1, x + 1);
    FewTogether(old_, y, y + 1);
    FewTogether(new_, y, y + 1);
    FewTogether(new_, x, x + 1);
    FewTogether(new_, x - 1, x);
    FewTogether(new_, x - 1, x + 1);
  }

  lemma SidesApart(left: seq<RangeNode>, right: seq<RangeNode>, x: int, a: int, b: int)
    requires forall i :: 0 <= i < |left| ==> left[i].maxIndex < x
    requires forall i :: 0 <= i < |right| ==> x < right[i].minIndex
    requires a <= x <= b
    ensures !Together(left, a, b) && !Together(right, a, b)
  {
  }

  lemma FewTogether(s: seq<RangeNode>, a: int, b: int)
    requires |s| <= 2
    ensures Together(s, a, b) <==>
            || (|s| > 0 && s[0].minIndex <= a && b <= s[0].maxIndex)
            || (|s| > 1 && s[1].minIndex <= a && b <= s[1].maxIndex)
  {
  }

  /** An integer already in the first of two disjoint ranges is put between them again. */
  lemma InsideExample() returns (s: seq<RangeNode>)
    ensures s == [RangeNode(5, 7), RangeNode(20, 20)] && Kept(s) && Disjoint(s) && Splits(s, 6, 1)
    ensures InsertedAt(s, 6, 1) == [RangeNode(5, 7), RangeNode(6, 6), RangeNode(20, 20)]
    ensures !Disjoint(InsertedAt(s, 6, 1))
  {
    s := [RangeNode(5, 7), RangeNode(20, 20)];
    assert s[0].minIndex < 6 <= s[0].maxIndex;
    InsertDisjoint(s, 6, 1);
  }

  // ----- runs of inserts -----

  /** Where `x` belongs. */
  ghost function Place(s: seq<RangeNode>, x: int): (at: nat)
    requires Kept(s)
    ensures Splits(s, x, at)
  {
    if s != [] && x <= s[|s| - 1].minIndex then Place(s[..|s| - 1], x) else |s|
  }

  ghost function InsertedRun(s: seq<RangeNode>, xs: seq<int>): (t: seq<RangeNode>)
    requires Kept(s)
    ensures Kept(t)
  {
    if xs == [] then s
    else
      var before := InsertedRun(s, xs[..|xs| - 1]);
      InsertKeeps(before, xs[|xs| - 1], Place(before, xs[|xs| - 1]));
      InsertedAt(before, xs[|xs| - 1], Place(before, xs[|xs| - 1]))
  }

  lemma PlaceIs(s: seq<RangeNode>, x: int, at: nat)
    requires Kept(s) && Splits(s, x, at)
    ensures Place(s, x) == at
  {
  }

  lemma RunInserts(s: seq<RangeNode>, xs: seq<int>, x: int, at: nat)
    requires Kept(s) && Splits(InsertedRun(s, xs), x, at)
    ensures InsertedRun(s, xs + [x]) == InsertedAt(InsertedRun(s, xs), x, at)
  {
    assert (xs + [x])[..|xs|] == xs;
    PlaceIs(InsertedRun(s, xs), x, at);
  }

  lemma RepeatSteps()
    ensures Splits([], 5, 0) && InsertedAt([], 5, 0) == [RangeNode(5, 5)]
    ensures Splits([RangeNode(5, 5)], 6, 1) && InsertedAt([RangeNode(5, 5)], 6, 1) == [RangeNode(5, 6)]
    ensures Splits([RangeNode(5, 6)], 7, 1) && InsertedAt([RangeNode(5, 6)], 7, 1) == [RangeNode(5, 7)]
    ensures Splits([RangeNode(5, 7)], 20, 1)
    ensures InsertedAt([RangeNode(5, 7)], 20, 1) == [RangeNode(5, 7), RangeNode(20, 20)]
  {
  }

  lemma RepeatStart()
    ensures InsertedRun([], [5, 6, 7]) == [RangeNode(5, 7)]
  {
    hide *;
    NothingInserted();
    RepeatSteps();
    RunInserts([], [], 5, 0);
    assert [] + [5] == [5];
    RunInserts([], [5], 6, 1);
    assert [5] + [6] == [5, 6];
    RunInserts([], [5, 6], 7, 1);
    assert [5, 6] + [7] == [5, 6, 7];
  }

  /** A run that inserts an integer twice and ends with overlapping ranges. */
  lemma RepeatExample()
    ensures InsertedRun([], [5, 6, 7, 20, 6]) == [RangeNode(5, 7), RangeNode(6, 6), RangeNode(20, 20)]
    ensures !Disjoint(InsertedRun([], [5, 6, 7, 20, 6]))
  {
    hide *;
    NothingInserted();
    RepeatSteps();
    RepeatStart();
    RunInserts([], [5, 6, 7], 20, 1);
    assert [5, 6, 7] + [20] == [5, 6, 7, 20];
    var s := InsideExample();
    RunInserts([], [5, 6, 7, 20], 6, 1);
    assert [5, 6, 7, 20] + [6] == [5, 6, 7, 20, 6];
  }

  lemma NothingInserted()
    ensures Kept([]) && InsertedRun([], []) == [] && Disjoint([]) && Sum([]) == 0
    ensures forall y :: !Covers([], y)
  {
  }

  lemma RunKept(xs: seq<int>)
    ensures Kept(InsertedRun([], xs))
  {
  }

  lemma NotInside(s: seq<RangeNode>, x: int)
    requires !Covers(s, x)
    ensures !InsideEarlier(s, x)
  {
  }

  /** After any run of inserts into an empty list the ranges hold exactly what was inserted; if nothing was
      inserted twice they are disjoint, and their sum is the number of inserts. */
  lemma {:induction false} RunHoldsInserted(xs: seq<int>)
    ensures forall y :: Covers(InsertedRun([], xs), y) <==> y in xs
    ensures (forall i, j :: 0 <= i < j < |xs| ==> xs[i] != xs[j]) ==>
              Disjoint(InsertedRun([], xs)) && Sum(InsertedRun([], xs)) == |xs|
  {
    hide InsertedAt, Covers, Sum, Disjoint, InsertedRun, Kept;
    NothingInserted();
    if xs != [] {
      var rest, x := xs[..|xs| - 1], xs[|xs| - 1];
      RunHoldsInserted(rest);
      assert xs == rest + [x];
      RunKept(rest);
      var before := InsertedRun([], rest);
      var at := Place(before, x);
      RunInserts([], rest, x, at);
      forall y ensures Covers(InsertedAt(before, x, at), y) <==> y in xs {
        InsertCovers(before, x, at, y);
      }
      if forall i, j :: 0 <= i < j < |xs| ==> xs[i] != xs[j] {
        assert x !in rest;
        NotInside(before, x);
        InsertDisjoint(before, x, at);
        InsertCovers(before, x, at, x);
      }
    }
  }

  // ----- the encoding -----

  type byte = b: nat | b < 0x100 witness 0

  /** A number in `n` bytes, the most significant first. */
  function Bytes(v: nat, n: nat): (s: seq<byte>)
    ensures |s| == n
  {
    if n == 0 then [] else Bytes(v / 0x100, n - 1) + [v % 0x100]
  }

  function Value(s: seq<byte>): nat {
    if s == [] then 0 else Value(s[..|s| - 1]) * 0x100 + s[|s| - 1]
  }

  lemma {:induction false} BytesHoldValue(v: nat, n: nat)
    requires v < Power(0x100, n)
    ensures Value(Bytes(v, n)) == v
  {
    if n > 0 {
      BytesHoldValue(v / 0x100, n - 1);
    }
  }

  /** The ends of the ranges are of the list's index type, `n` bytes wide. */
  ghost predicate Fits(s: seq<RangeNode>, n: nat) {
    forall i :: 0 <= i < |s| ==> 0 <= s[i].minIndex < Power(0x100, n) && 0 <= s[i].maxIndex < Power(0x100, n)
  }

  /** One range on the stream: a byte telling whether the ends are equal, then the one or the two ends. */
  function Encoded(r: RangeNode, n: nat): seq<byte>
    requires 0 <= r.minIndex && 0 <= r.maxIndex
  {
    if r.minIndex == r.maxIndex then [1] + Bytes(r.minIndex, n)
    else [0] + Bytes(r.minIndex, n) + Bytes(r.maxIndex, n)
  }

  function EncodedAll(s: seq<RangeNode>, n: nat): seq<byte>
    requires forall i :: 0 <= i < |s| ==> 0 <= s[i].minIndex && 0 <= s[i].maxIndex
  {
    if s == [] then [] else Encoded(s[0], n) + EncodedAll(s[1..], n)
  }

  /** The next range of a stream, and how many bytes it takes; nothing if the stream is too short or the
      range is upside down. */
  datatype Decoding = Bad | Decoded(range: RangeNode, used: nat)

  function Decode(stream: seq<byte>, n: nat): (d: Decoding)
    ensures d.Decoded? ==> 0 < d.used <= |stream| && d.range.minIndex <= d.range.maxIndex
  {
    if |stream| < 1 + n then Bad
    else
      var min := Value(stream[1..1 + n]);
      if stream[0] != 0 then Decoded(RangeNode(min, min), 1 + n)
      else if |stream| < 1 + 2 * n then Bad
      else
        var max := Value(stream[1 + n..1 + 2 * n]);
        if max < min then Bad else Decoded(RangeNode(min, max), 1 + 2 * n)
  }

  /** Decoding undoes encoding, whatever follows. */
  lemma DecodeEncoded(r: RangeNode, n: nat, rest: seq<byte>)
    requires 0 <= r.minIndex <= r.maxIndex < Power(0x100, n)
    ensures Decode(Encoded(r, n) + rest, n) == Decoded(r, |Encoded(r, n)|)
  {
    var stream := Encoded(r, n) + rest;
    BytesHoldValue(r.minIndex, n);
    BytesHoldValue(r.maxIndex, n);
    assert stream[1..1 + n] == Bytes(r.minIndex, n);
    if r.minIndex != r.maxIndex {
      assert stream[1 + n..1 + 2 * n] == Bytes(r.maxIndex, n);
    }
  }

  /** The ranges of a stream up to the first bad one, and whether there was none. */
  datatype Run = Run(ok: bool, ranges: seq<RangeNode>)

  function DecodedRun(stream: seq<byte>, n: nat, count: nat): Run
    decreases count
  {
    if count == 0 then Run(true, [])
    else match Decode(stream, n)
      case Bad => Run(false, [])
      case Decoded(range, used) =>
        var more := DecodedRun(stream[used..], n, count - 1);
        Run(more.ok, [range] + more.ranges)
  }

  lemma RunGoesOn(stream: seq<byte>, n: nat, pos: nat, count: nat)
    requires pos <= |stream| && count > 0
    ensures var step, run := Decode(stream[pos..], n), DecodedRun(stream[pos..], n, count);
      if step.Bad? then run == Run(false, [])
      else
        pos + step.used <= |stream| &&
        var more := DecodedRun(stream[pos + step.used..], n, count - 1);
        run == Run(more.ok, [step.range] + more.ranges)
  {
    var step := Decode(stream[pos..], n);
    if step.Decoded? {
      assert stream[pos..][step.used..] == stream[pos + step.used..];
    }
  }

  /** What is read back is proper; it is a list to insert into exactly when its lower ends increase. */
  lemma {:induction false} DecodedKept(stream: seq<byte>, n: nat, count: nat)
    ensures var s := DecodedRun(stream, n, count).ranges;
      && |s| <= count && (forall i :: 0 <= i < |s| ==> 0 <= s[i].minIndex <= s[i].maxIndex)
      && (Kept(s) <==> forall i, j :: 0 <= i < j < |s| ==> s[i].minIndex < s[j].minIndex)
    decreases count
  {
    hide Decode;
    if count > 0 {
      DecodedProper(stream, n);
      var d := Decode(stream, n);
      if d.Decoded? {
        DecodedKept(stream[d.used..], n, count - 1);
      }
    }
  }

  lemma DecodedProper(stream: seq<byte>, n: nat)
    ensures var d := Decode(stream, n); d.Decoded? ==> 0 <= d.range.minIndex <= d.range.maxIndex
  {
  }

  lemma TooShort(stream: seq<byte>, n: nat, count: nat)
    requires 1 <= n && |stream| < 2
    ensures DecodedRun(stream, n, count) == Run(count == 0, [])
  {
  }

  lemma RunEnds(stream: seq<byte>, n: nat)
    ensures DecodedRun(stream, n, 0) == Run(true, [])
  {
  }

  /** Reading back what was written gives the same ranges. */
  lemma {:induction false} DecodeEncodedAll(s: seq<RangeNode>, n: nat, rest: seq<byte>)
    requires (forall i :: 0 <= i < |s| ==> s[i].minIndex <= s[i].maxIndex) && Fits(s, n)
    ensures DecodedRun(EncodedAll(s, n) + rest, n, |s|) == Run(true, s)
  {
    hide EncodedAll, Encoded, DecodedRun, Decode, Power;
    EncodedStep(s, n);
    DecodedStep(EncodedAll(s, n) + rest, n, |s|);
    if s != [] {
      var first, more := Encoded(s[0], n), EncodedAll(s[1..], n);
      assert EncodedAll(s, n) + rest == first + (more + rest);
      DecodeEncoded(s[0], n, more + rest);
      assert (first + (more + rest))[|first|..] == more + rest;
      DecodeEncodedAll(s[1..], n, rest);
      assert [s[0]] + s[1..] == s;
    }
  }

  lemma EncodedStep(s: seq<RangeNode>, n: nat)
    requires forall i :: 0 <= i < |s| ==> 0 <= s[i].minIndex && 0 <= s[i].maxIndex
    ensures EncodedAll([], n) == []
    ensures s != [] ==> EncodedAll(s, n) == Encoded(s[0], n) + EncodedAll(s[1..], n)
  {
    hide Encoded;
  }

  lemma DecodedStep(stream: seq<byte>, n: nat, count: nat)
    ensures count == 0 ==> DecodedRun(stream, n, count) == Run(true, [])
    ensures count > 0 && Decode(stream, n).Decoded? ==>
              var d := Decode(stream, n);
              var more := DecodedRun(stream[d.used..], n, count - 1);
              DecodedRun(stream, n, count) == Run(more.ok, [d.range] + more.ranges)
  {
    hide Decode;
  }

  lemma {:induction false} EncodedLast(s: seq<RangeNode>, r: RangeNode, n: nat)
    requires forall i :: 0 <= i < |s| ==> 0 <= s[i].minIndex && 0 <= s[i].maxIndex
    requires 0 <= r.minIndex && 0 <= r.maxIndex
    ensures EncodedAll(s + [r], n) == EncodedAll(s, n) + Encoded(r, n)
  {
    hide EncodedAll, Encoded;
    EncodedStep(s, n);
    EncodedStep(s + [r], n);
    if s == [] {
      assert (s + [r])[1..] == [];
    } else {
      EncodedLast(s[1..], r, n);
      assert (s + [r])[1..] == s[1..] + [r];
    }
  }

  // ----- rounds -----

  /** How many ranges of `s` one call has room for, `used` bytes being written already: each needs room for
      two ends and one bit. */
  function Fitting(s: seq<RangeNode>, n: nat, maxBits: nat, used: nat): (k: nat)
    requires forall i :: 0 <= i < |s| ==> 0 <= s[i].minIndex && 0 <= s[i].maxIndex
    ensures k <= |s|
  {
    if s == [] || 16 + 8 * used + n * 8 * 2 + 1 > maxBits then 0
    else 1 + Fitting(s[1..], n, maxBits, used + |Encoded(s[0], n)|)
  }

  /** The parts of a list that repeated calls write. */
  function Rounds(s: seq<RangeNode>, n: nat, maxBits: nat, rounds: nat): seq<seq<RangeNode>>
    requires forall i :: 0 <= i < |s| ==> 0 <= s[i].minIndex && 0 <= s[i].maxIndex
    decreases rounds
  {
    if rounds == 0 then []
    else
      var k := Fitting(s, n, maxBits, 0);
      [s[..k]] + Rounds(s[k..], n, maxBits, rounds - 1)
  }

  function Joined(parts: seq<seq<RangeNode>>): seq<RangeNode> {
    if parts == [] then [] else parts[0] + Joined(parts[1..])
  }

  /** With room for one range, as many calls as there are ranges write the whole list, in order. */
  lemma {:induction false} RoomDrains(s: seq<RangeNode>, n: nat, maxBits: nat, rounds: nat)
    requires forall i :: 0 <= i < |s| ==> 0 <= s[i].minIndex && 0 <= s[i].maxIndex
    requires 16 + n * 8 * 2 + 1 <= maxBits && |s| <= rounds
    ensures Joined(Rounds(s, n, maxBits, rounds)) == s
    decreases rounds
  {
    hide Encoded;
    if rounds > 0 {
      var k := Fitting(s, n, maxBits, 0);
      RoomDrains(s[k..], n, maxBits, rounds - 1);
      var parts := Rounds(s[k..], n, maxBits, rounds - 1);
      assert ([s[..k]] + parts)[1..] == parts;
      assert s[..k] + s[k..] == s;
    }
  }

  /** Without it no call writes anything. */
  lemma {:induction false} NoRoomStalls(s: seq<RangeNode>, n: nat, maxBits: nat, rounds: nat)
    requires forall i :: 0 <= i < |s| ==> 0 <= s[i].minIndex && 0 <= s[i].maxIndex
    requires 16 + n * 8 * 2 + 1 > maxBits
    ensures Joined(Rounds(s, n, maxBits, rounds)) == []
    decreases rounds
  {
    if rounds > 0 {
      NoRoomStalls(s, n, maxBits, rounds - 1);
      assert s[0..] == s && s[..0] == [];
      var parts := Rounds(s, n, maxBits, rounds - 1);
      assert ([s[..0]] + parts)[1..] == parts;
    }
  }

  /** Repeated calls drain a list that is not empty if and only if there is room for one range. */
  lemma RoundsDrain(s: seq<RangeNode>, n: nat, maxBits: nat, rounds: nat)
    requires forall i :: 0 <= i < |s| ==> 0 <= s[i].minIndex && 0 <= s[i].maxIndex
    requires s != [] && |s| <= rounds
    ensures Joined(Rounds(s, n, maxBits, rounds)) == s <==> 16 + n * 8 * 2 + 1 <= maxBits
  {
    if 16 + n * 8 * 2 + 1 <= maxBits {
      RoomDrains(s, n, maxBits, rounds);
    } else {
      NoRoomStalls(s, n, maxBits, rounds);
    }
  }

  // ----- the list object -----

  lemma KeptIncreases(s: seq<RangeNode>)
    requires Kept(s)
    ensures Increasing(MinOf, s)
  {
  }

  class RangeList {
    var ranges: seq<RangeNode>

    constructor ()
      ensures ranges == []
    {
      ranges := [];
    }

    method Clear()
      modifies this
      ensures ranges == []
    {
      ranges := [];
    }

    method Insert(index: int)
      requires Kept(ranges)
      modifies this
      ensures Kept(ranges)
      ensures ranges == InsertedAt(old(ranges), index, Place(old(ranges), index))
      ensures forall y :: Covers(ranges, y) <==> Covers(old(ranges), y) || y == index
    {
      ghost var at := Place(ranges, index);
      InsertKeeps(ranges, index, at);
      forall y ensures Covers(InsertedAt(ranges, index, at), y) <==> Covers(ranges, y) || y == index {
        InsertCovers(ranges, index, at, y);
      }
      InsertAt(index, at);
    }

    /** The body of Insert. */
    method InsertAt(index: int, ghost at: nat)
      requires Kept(ranges) && Splits(ranges, index, at)
      modifies this
      ensures ranges == InsertedAt(old(ranges), index, at)
    {
      hide InsertedAt, Taken, Kept;
      InsertedForms(ranges, index, at);
      KeptIncreases(ranges);
      if |ranges| == 0 {
        ranges := [RangeNode(index, index)];
        return;
      }
      var insertionIndex, objectExists := GetIndexFromKey(MinOf, ranges, index);
      assert at < |ranges| ==> MinOf(ranges[at]) == ranges[at].minIndex;
      assert insertionIndex < |ranges| ==> MinOf(ranges[insertionIndex]) == ranges[insertionIndex].minIndex;
      assert insertionIndex == at;
      if insertionIndex == |ranges| {
        var last := ranges[insertionIndex - 1];
        if index == last.maxIndex + 1 {
          ranges := ranges[insertionIndex - 1 := last.(maxIndex := last.maxIndex + 1)];
        } else if index > last.maxIndex + 1 {
          ranges := ranges + [RangeNode(index, index)];
        }
        return;
      }
      var here := ranges[insertionIndex];
      if index < here.minIndex - 1 {
        ranges := ranges[..insertionIndex] + [RangeNode(index, index)] + ranges[insertionIndex..];
      } else if index == here.minIndex - 1 {
        ranges := ranges[insertionIndex := here.(minIndex := here.minIndex - 1)];
        if insertionIndex > 0 && ranges[insertionIndex - 1].maxIndex + 1 == ranges[insertionIndex].minIndex {
          var left := ranges[insertionIndex - 1];
          ranges := ranges[insertionIndex - 1 := left.(maxIndex := ranges[insertionIndex].maxIndex)];
          ranges := ranges[..insertionIndex] + ranges[insertionIndex + 1..];
        }
      } else {
        // The search leaves only the lower end itself; the branch that grows a range upwards is never taken.
        assert index == here.minIndex;
      }
    }

    method RangeSum() returns (sum: int)
      ensures sum == Sum(ranges)
    {
      sum := 0;
      var i := 0;
      while i < |ranges|
        invariant 0 <= i <= |ranges| && sum == Sum(ranges[..i])
      {
        assert ranges[..i + 1][..i] == ranges[..i];
        sum := sum + ranges[i].maxIndex - ranges[i].minIndex + 1;
        i := i + 1;
      }
      assert ranges[..i] == ranges;
    }

    /** Write as many ranges as `maxBits` has room for, as bytes from a byte boundary on: a count of two
        bytes, then the ranges.  `n` is the size of the index type in bytes. */
    method Serialize(n: nat, maxBits: nat, clearSerialized: bool)
      returns (stream: seq<byte>, bitsWritten: nat, ghost count: nat)
      requires 1 <= n && |ranges| < 0xffff && Fits(ranges, n)
      modifies this
      ensures count == Fitting(old(ranges), n, maxBits, 0)
      ensures stream == Bytes(count, 2) + EncodedAll(old(ranges)[..count], n) && bitsWritten == 8 * |stream|
      ensures ranges == if clearSerialized then old(ranges)[count..] else old(ranges)
      ensures bitsWritten <= if maxBits < 16 then 16 else (maxBits + 7) / 8 * 8
    {
      hide Power, Fitting, Kept, Bytes, Encoded, EncodedAll;
      var tempBS, countWritten;
      tempBS, bitsWritten, countWritten := WriteRanges(n, maxBits);
      count := countWritten;
      stream := Bytes(countWritten, 2) + tempBS;
      bitsWritten := bitsWritten + 16;
      if clearSerialized && countWritten != 0 {
        ShiftDown(countWritten);
      }
    }

    /** The loop of Serialize. */
    method WriteRanges(n: nat, maxBits: nat) returns (tempBS: seq<byte>, bitsWritten: nat, countWritten: nat)
      requires 1 <= n && Fits(ranges, n)
      ensures countWritten <= |ranges|
      ensures tempBS == EncodedAll(ranges[..countWritten], n) && bitsWritten == 8 * |tempBS|
      ensures bitsWritten == 0 || 16 + bitsWritten <= (maxBits + 7) / 8 * 8
      ensures countWritten == Fitting(ranges, n, maxBits, 0)
    {
      hide Power, EncodedAll, Encoded, Bytes;
      tempBS, bitsWritten, countWritten := [], 0, 0;
      var i := 0;
      EncodedNone(n);
      assert ranges[..0] == [] && ranges[0..] == ranges;
      while i < |ranges|
        invariant 0 <= i == countWritten <= |ranges|
        invariant bitsWritten == 8 * |tempBS| && tempBS == EncodedAll(ranges[..i], n)
        invariant bitsWritten == 0 || 16 + bitsWritten <= (maxBits + 7) / 8 * 8
        invariant Fitting(ranges, n, maxBits, 0) == i + Fitting(ranges[i..], n, maxBits, |tempBS|)
      {
        if 16 + bitsWritten + n * 8 * 2 + 1 > maxBits {
          break;
        }
        RoomForOne(n, maxBits, |tempBS|);
        EncodedLast(ranges[..i], ranges[i], n);
        assert ranges[..i] + [ranges[i]] == ranges[..i + 1] && ranges[i..][1..] == ranges[i + 1..];
        var one, bits := WriteRange(ranges[i], n);
        tempBS := tempBS + one;
        bitsWritten := bitsWritten + bits;
        countWritten := countWritten + 1;
        i := i + 1;
      }
    }

    /** One range: the flag takes a whole byte. */
    static method WriteRange(r: RangeNode, n: nat) returns (bytes: seq<byte>, bits: nat)
      requires 0 <= r.minIndex && 0 <= r.maxIndex
      ensures bytes == Encoded(r, n) && bits == 8 * |bytes| && |bytes| <= 1 + 2 * n
    {
      var minEqualsMax := if r.minIndex == r.maxIndex then 1 else 0;
      bytes := [minEqualsMax] + Bytes(r.minIndex, n);
      bits := n * 8 + 8;
      if r.minIndex != r.maxIndex {
        bytes := bytes + Bytes(r.maxIndex, n);
        bits := bits + n * 8;
      }
    }

    lemma EncodedNone(n: nat)
      ensures EncodedAll([], n) == []
    {
    }

    /** All that is written comes in whole bytes, so the check leaves room for a flag of eight bits although
        it counts one. */
    lemma RoomForOne(n: nat, maxBits: nat, used: nat)
      requires 16 + 8 * used + n * 8 * 2 + 1 <= maxBits
      ensures 16 + 8 * (used + 1 + 2 * n) <= (maxBits + 7) / 8 * 8
    {
    }

    /** Drop the first ranges by moving the others down and cutting the end off. */
    method ShiftDown(countWritten: nat)
      requires countWritten <= |ranges|
      modifies this
      ensures ranges == old(ranges)[countWritten..]
    {
      ghost var r := ranges;
      var rangeSize, i := |ranges|, 0;
      while i < rangeSize - countWritten
        invariant 0 <= i <= rangeSize - countWritten
        invariant |ranges| == rangeSize
        invariant forall j, k :: 0 <= j < i && k == j + countWritten ==> ranges[j] == r[k]
        invariant forall k :: i <= k < rangeSize ==> ranges[k] == r[k]
      {
        ranges := ranges[i := ranges[i + countWritten]];
        i := i + 1;
      }
      ranges := ranges[..|ranges| - countWritten];
    }

    /** Read a list from a stream.  False if it ends too soon or a range is upside down; the ranges before that
        are kept.  When the stream is too short for the count, the count is whatever was in its memory. */
    method Deserialize(n: nat, stream: seq<byte>, garbage: nat) returns (ok: bool)
      requires 1 <= n
      modifies this
      ensures var count := if |stream| >= 2 then Value(stream[..2]) else garbage;
              Run(ok, ranges) == DecodedRun(if |stream| >= 2 then stream[2..] else stream, n, count)
      ensures |stream| < 2 ==> ranges == [] && (ok <==> garbage == 0)
      ensures Kept(ranges) <==> forall i, j :: 0 <= i < j < |ranges| ==> ranges[i].minIndex < ranges[j].minIndex
    {
      hide Decode, Value, DecodedRun, Kept;
      var count, pos := garbage, 0;
      if |stream| >= 2 {
        count := Value(stream[..2]);
        pos := 2;
      }
      if |stream| < 2 {
        TooShort(stream, n, garbage);
      }
      assert stream[0..] == stream;
      DecodedKept(stream[pos..], n, count);
      ok := ReadRanges(n, stream, pos, count);
    }

    /** The loop of Deserialize. */
    method ReadRanges(n: nat, stream: seq<byte>, start: nat, count: nat) returns (ok: bool)
      requires 1 <= n && start <= |stream|
      modifies this
      ensures Run(ok, ranges) == DecodedRun(stream[start..], n, count)
    {
      hide Decode, DecodedRun;
      ranges := [];
      var pos := start;
      var i := 0;
      ghost var all := DecodedRun(stream[start..], n, count);
      assert [] + all.ranges == all.ranges;
      while i < count
        invariant 0 <= i <= count && 0 <= pos <= |stream|
        invariant var rest := DecodedRun(stream[pos..], n, count - i);
                  all.ok == rest.ok && all.ranges == ranges + rest.ranges
      {
        RunGoesOn(stream, n, pos, count - i);
        var good, range, next := ReadRange(n, stream, pos);
        if !good {
          return false;
        }
        ranges := ranges + [range];
        pos := next;
        i := i + 1;
      }
      RunEnds(stream[pos..], n);
      ok := true;
    }

    /** Read one range. */
    static method ReadRange(n: nat, stream: seq<byte>, pos: nat) returns (ok: bool, range: RangeNode, next: nat)
      requires 1 <= n && pos <= |stream|
      ensures Decode(stream[pos..], n) == if ok && pos <= next then Decoded(range, next - pos) else Bad
      ensures ok ==> pos < next <= |stream|
    {
      ghost var here := stream[pos..];
      range, next := RangeNode(0, 0), pos;
      var maxEqualToMin := 0;
      if pos < |stream| {
        maxEqualToMin := stream[pos];
        next := pos + 1;
      }
      if |stream| - next < n {
        return false, range, next;
      }
      var min, max := Value(stream[next..next + n]), 0;
      assert here[1..1 + n] == stream[next..next + n];
      next := next + n;
      if maxEqualToMin == 0 {
        if |stream| - next < n {
          return false, range, next;
        }
        max := Value(stream[next..next + n]);
        assert here[1 + n..1 + 2 * n] == stream[next..next + n];
        next := next + n;
        if max < min {
          return false, range, next;
        }
      } else {
        max := min;
      }
      ok, range := true, RangeNode(min, max);
    }

    /** What one list writes another reads: the ranges written are a prefix of the list, and those kept by
        clearSerialized are the rest of it. */
    static lemma ReadsWhatWasWritten(list: seq<RangeNode>, n: nat, count: nat)
      requires 1 <= n && |list| < 0xffff && Fits(list, n) && count <= |list|
      requires forall i :: 0 <= i < |list| ==> list[i].minIndex <= list[i].maxIndex
      ensures var stream := Bytes(count, 2) + EncodedAll(list[..count], n);
              && DecodedRun(stream[2..], n, Value(stream[..2])) == Run(true, list[..count])
              && list[..count] + list[count..] == list
    {
      hide DecodedRun, EncodedAll, Bytes, Value;
      var encoded := EncodedAll(list[..count], n);
      var stream := Bytes(count, 2) + encoded;
      assert stream[2..] == encoded + [] && stream[..2] == Bytes(count, 2);
      assert Power(0x100, 2) == 0x100 * Power(0x100, 1) == 0x1_0000;
      BytesHoldValue(count, 2);
      DecodeEncodedAll(list[..count], n, []);
    }
  }
}
