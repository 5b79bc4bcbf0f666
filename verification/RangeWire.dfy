/** What a range list puts on a stream (DS_RangeList.h:64-144), byte by byte. */
module RangeWire {

  import opened Powers
  import opened RangeLists

  // ----- numbers -----

  /** The number `v` stands in `n` bytes at an index, the most significant first. */
  ghost predicate Spells(t: seq<byte>, at: nat, n: nat, v: nat) {
    && at + n <= |t| && v < Power(0x100, n)
    && forall k :: at <= k < at + n ==> t[k] == v / Power(0x100, at + n - 1 - k) % 0x100
  }

  lemma NotMore(d: nat, x: int, y: int)
    requires x <= y
    ensures d * x <= d * y
  {
  }

  lemma Distributes(a: nat, x: int, y: int)
    ensures a * (x + y) == a * x + a * y
  {
  }

  lemma Associates(a: nat, b: nat, k: nat)
    ensures a * (b * k) == (a * b) * k
  {
  }

  lemma Divided(v: nat, d: nat)
    requires d > 0
    ensures v == d * (v / d) + v % d && v % d < d
  {
  }

  /** The quotient is known by its remainder. */
  lemma Quotient(v: nat, d: nat, k: nat, r: nat)
    requires v == d * k + r && r < d
    ensures v / d == k
  {
    var q := v / d;
    Divided(v, d);
    Distributes(d, q, 1);
    Distributes(d, k, 1);
    if q < k {
      NotMore(d, q + 1, k);
    } else if q > k {
      NotMore(d, k + 1, q);
    }
  }

  lemma DivTwice(v: nat, a: nat, b: nat)
    requires a > 0 && b > 0
    ensures a * b > 0 && v / a / b == v / (a * b)
  {
    var q, r := v / a, v % a;
    var k, s := q / b, q % b;
    Divided(v, a);
    Divided(q, b);
    Distributes(a, b * k, s);
    Associates(a, b, k);
    Distributes(a, s, 1);
    NotMore(a, s + 1, b);
    Quotient(v, a * b, k, a * s + r);
  }

  lemma {:induction false} DigitAt(v: nat, n: nat, i: nat)
    requires i < n
    ensures Bytes(v, n)[i] == v / Power(0x100, n - 1 - i) % 0x100
  {
    if i == n - 1 {
      assert Power(0x100, 0) == 1;
    } else {
      DigitAt(v / 0x100, n - 1, i);
      DivTwice(v, 0x100, Power(0x100, n - 2 - i));
      assert Power(0x100, n - 1 - i) == 0x100 * Power(0x100, n - 2 - i);
    }
  }

  lemma SpellsBytes(t: seq<byte>, at: nat, n: nat, v: nat)
    requires at + n <= |t| && v < Power(0x100, n)
    ensures Spells(t, at, n, v) <==> t[at..at + n] == Bytes(v, n)
  {
    hide Power, Bytes;
    var b := Bytes(v, n);
    forall i | 0 <= i < n ensures b[i] == v / Power(0x100, n - 1 - i) % 0x100 {
      DigitAt(v, n, i);
    }
    if t[at..at + n] == b {
      forall k | at <= k < at + n ensures t[k] == v / Power(0x100, at + n - 1 - k) % 0x100 {
        assert t[k] == t[at..at + n][k - at];
      }
    }
    if Spells(t, at, n, v) {
      forall i | 0 <= i < n ensures t[at..at + n][i] == b[i] {
        assert t[at + i] == t[at..at + n][i];
      }
    }
  }

  lemma {:induction false} BytesOfValue(s: seq<byte>)
    ensures Value(s) < Power(0x100, |s|) && Bytes(Value(s), |s|) == s
    decreases |s|
  {
    if s != [] {
      BytesOfValue(s[..|s| - 1]);
    }
  }

  /** Whatever stands in `n` bytes is the value read from them, and no other number is. */
  lemma SpellsValue(t: seq<byte>, at: nat, n: nat, v: nat)
    requires at + n <= |t|
    ensures Spells(t, at, n, v) <==> v == Value(t[at..at + n])
  {
    hide Power, Bytes, Value, Spells;
    BytesOfValue(t[at..at + n]);
    SpellsBytes(t, at, n, Value(t[at..at + n]));
    if Spells(t, at, n, v) {
      SpellsSmall(t, at, n, v);
      SpellsBytes(t, at, n, v);
      BytesHoldValue(v, n);
    }
  }

  lemma SpellsSmall(t: seq<byte>, at: nat, n: nat, v: nat)
    requires Spells(t, at, n, v)
    ensures v < Power(0x100, n)
  {
  }

  // ----- ranges -----

  /** A range stands at an index: a byte that says whether its ends are equal, 1 for yes and 0 for no, then the lower
      end, and if they are not equal the upper end. */
  ghost predicate Written(t: seq<byte>, at: nat, n: nat, r: RangeNode) {
    && 0 <= r.minIndex && 0 <= r.maxIndex && at < |t|
    && t[at] == (if r.minIndex == r.maxIndex then 1 else 0)
    && Spells(t, at + 1, n, r.minIndex)
    && (r.minIndex != r.maxIndex ==> Spells(t, at + 1 + n, n, r.maxIndex))
  }

  /** How many bytes the first ranges of a list take. */
  function Offset(s: seq<RangeNode>, n: nat, i: nat): nat
    requires i <= |s|
  {
    if i == 0 then 0 else Offset(s, n, i - 1) + if s[i - 1].minIndex == s[i - 1].maxIndex then 1 + n else 1 + 2 * n
  }

  /** Where the parts of a written range stand. */
  lemma PartsStand(before: seq<byte>, flag: seq<byte>, min: seq<byte>, max: seq<byte>, rest: seq<byte>)
    requires |flag| == 1
    ensures var t, at := before + (flag + min + max) + rest, |before|;
            && t[at] == flag[0] && t[at + 1..at + 1 + |min|] == min
            && t[at + 1 + |min|..at + 1 + |min| + |max|] == max
  {
  }

  lemma RangeWritten(r: RangeNode, n: nat, before: seq<byte>, rest: seq<byte>)
    requires 0 <= r.minIndex < Power(0x100, n) && 0 <= r.maxIndex < Power(0x100, n)
    ensures Written(before + Encoded(r, n) + rest, |before|, n, r)
    ensures |Encoded(r, n)| == if r.minIndex == r.maxIndex then 1 + n else 1 + 2 * n
  {
    hide Power, Bytes, Spells;
    var t := before + Encoded(r, n) + rest;
    if r.minIndex == r.maxIndex {
      PartsStand(before, [1], Bytes(r.minIndex, n), [], rest);
      assert [1] + Bytes(r.minIndex, n) + [] == Encoded(r, n);
    } else {
      PartsStand(before, [0], Bytes(r.minIndex, n), Bytes(r.maxIndex, n), rest);
    }
    SpellsBytes(t, |before| + 1, n, r.minIndex);
    if r.minIndex != r.maxIndex {
      SpellsBytes(t, |before| + 1 + n, n, r.maxIndex);
    }
  }

  lemma {:induction false} EncodedParts(s: seq<RangeNode>, n: nat, i: nat)
    requires Fits(s, n) && i < |s|
    ensures EncodedAll(s, n) == EncodedAll(s[..i], n) + Encoded(s[i], n) + EncodedAll(s[i + 1..], n)
    ensures |EncodedAll(s[..i], n)| == Offset(s, n, i)
  {
    hide Power, Encoded, EncodedAll;
    EncodedStep(s, n);
    if i == 0 {
      assert s[..0] == [];
    } else {
      EncodedParts(s[1..], n, i - 1);
      assert s[1..][..i - 1] == s[..i][1..] && s[1..][i..] == s[i + 1..] && s[1..][i - 1] == s[i];
      EncodedStep(s[..i], n);
      RangeSize(s[0], n);
      OffsetLater(s, n, i - 1);
    }
  }

  lemma RangeSize(r: RangeNode, n: nat)
    requires 0 <= r.minIndex && 0 <= r.maxIndex
    ensures |Encoded(r, n)| == if r.minIndex == r.maxIndex then 1 + n else 1 + 2 * n
  {
  }

  lemma {:induction false} OffsetLater(s: seq<RangeNode>, n: nat, i: nat)
    requires i + 1 <= |s|
    ensures Offset(s, n, i + 1) ==
            (if s[0].minIndex == s[0].maxIndex then 1 + n else 1 + 2 * n) + Offset(s[1..], n, i)
  {
    if i > 0 {
      OffsetLater(s, n, i - 1);
    }
  }

  /** The stream that Serialize writes: the count in two bytes, then the ranges one behind the other. */
  lemma StreamWritten(s: seq<RangeNode>, n: nat)
    requires Fits(s, n) && |s| < 0xffff
    ensures var t := Bytes(|s|, 2) + EncodedAll(s, n);
            && |t| == 2 + Offset(s, n, |s|) && t[0] == |s| / 0x100 && t[1] == |s| % 0x100
            && forall i :: 0 <= i < |s| ==> Written(t, 2 + Offset(s, n, i), n, s[i])
  {
    hide Power, Encoded, EncodedAll, Written, Offset;
    var t := Bytes(|s|, 2) + EncodedAll(s, n);
    CountBytes(|s|);
    StreamSize(s, n);
    forall i | 0 <= i < |s| ensures Written(t, 2 + Offset(s, n, i), n, s[i]) {
      EncodedParts(s, n, i);
      var before := Bytes(|s|, 2) + EncodedAll(s[..i], n);
      assert t == before + Encoded(s[i], n) + EncodedAll(s[i + 1..], n);
      RangeWritten(s[i], n, before, EncodedAll(s[i + 1..], n));
    }
  }

  lemma CountBytes(count: nat)
    requires count < 0x1_0000
    ensures Bytes(count, 2) == [count / 0x100, count % 0x100]
  {
    assert Bytes(count, 2) == Bytes(count / 0x100, 1) + [count % 0x100];
    assert Bytes(count / 0x100, 1) == Bytes(count / 0x100 / 0x100, 0) + [count / 0x100 % 0x100];
  }

  lemma StreamSize(s: seq<RangeNode>, n: nat)
    requires Fits(s, n)
    ensures |EncodedAll(s, n)| == Offset(s, n, |s|)
  {
    hide Power, Encoded, EncodedAll;
    EncodedStep(s, n);
    if s != [] {
      var i := |s| - 1;
      EncodedParts(s, n, i);
      assert s[i + 1..] == [];
      EncodedStep(s[i + 1..], n);
      RangeSize(s[i], n);
    }
  }

  /** A list of a single number and a range, in two-byte numbers. */
  lemma StreamExample() returns (s: seq<RangeNode>)
    ensures s == [RangeNode(5, 5), RangeNode(6, 300)]
    ensures Bytes(|s|, 2) + EncodedAll(s, 2) == [0, 2, 1, 0, 5, 0, 0, 6, 1, 44]
  {
    s := [RangeNode(5, 5), RangeNode(6, 300)];
    CountBytes(2);
    CountBytes(5);
    CountBytes(6);
    CountBytes(300);
    hide Bytes;
    assert s[1..] == [RangeNode(6, 300)] && s[1..][1..] == [];
    assert EncodedAll(s, 2) == Encoded(s[0], 2) + (Encoded(s[1], 2) + []);
  }

  /** Is there room for one range more behind the first `i`, by the check that is made: for two ends and one bit? */
  predicate Room(s: seq<RangeNode>, n: nat, maxBits: nat, used: nat, i: nat)
    requires i <= |s|
  {
    16 + 8 * (used + Offset(s, n, i)) + 8 * (2 * n) + 1 <= maxBits
  }

  lemma RoomLater(s: seq<RangeNode>, n: nat, maxBits: nat, used: nat, i: nat)
    requires i + 1 <= |s| && 0 <= s[0].minIndex && 0 <= s[0].maxIndex
    ensures Room(s, n, maxBits, used, i + 1) <==> Room(s[1..], n, maxBits, used + |Encoded(s[0], n)|, i)
  {
    hide Offset, Encoded;
    RangeSize(s[0], n);
    OffsetLater(s, n, i);
  }

  /** How many ranges one call writes: as many as there is room for, one after the other. */
  lemma {:induction false} FittingIs(s: seq<RangeNode>, n: nat, maxBits: nat, used: nat, k: nat)
    requires (forall i :: 0 <= i < |s| ==> 0 <= s[i].minIndex && 0 <= s[i].maxIndex) && k <= |s|
    ensures k <= Fitting(s, n, maxBits, used) <==> forall i :: 0 <= i < k ==> Room(s, n, maxBits, used, i)
  {
    hide Encoded, Room;
    RoomStarts(s, n, maxBits, used);
    if k > 0 && Room(s, n, maxBits, used, 0) {
      var r, more := s[1..], used + |Encoded(s[0], n)|;
      FittingIs(r, n, maxBits, more, k - 1);
      forall i | 0 <= i < k - 1 ensures Room(s, n, maxBits, used, i + 1) <==> Room(r, n, maxBits, more, i) {
        RoomLater(s, n, maxBits, used, i);
      }
      if forall i :: 0 <= i < k ==> Room(s, n, maxBits, used, i) {
        forall i | 0 <= i < k - 1 ensures Room(r, n, maxBits, more, i) {
          assert Room(s, n, maxBits, used, i + 1);
        }
      } else if k <= Fitting(s, n, maxBits, used) {
        forall i | 0 <= i < k ensures Room(s, n, maxBits, used, i) {
          assert i > 0 ==> Room(r, n, maxBits, more, i - 1);
        }
      }
    }
  }

  lemma RoomStarts(s: seq<RangeNode>, n: nat, maxBits: nat, used: nat)
    ensures Room(s, n, maxBits, used, 0) <==> 16 + 8 * used + n * 8 * 2 + 1 <= maxBits
  {
  }

  // ----- reading -----

  /** A stream begins with a range: a byte, and if that is not 0 the one number that both ends are, else the lower and
      the upper end. */
  ghost predicate BeginsWith(t: seq<byte>, n: nat, r: RangeNode) {
    && t != [] && 0 <= r.minIndex <= r.maxIndex && Spells(t, 1, n, r.minIndex)
    && if t[0] != 0 then r.maxIndex == r.minIndex else Spells(t, 1 + n, n, r.maxIndex)
  }

  /** The upper end that stands there is below the lower one. */
  ghost predicate UpsideDown(t: seq<byte>, n: nat, min: nat, max: nat) {
    Spells(t, 1, n, min) && Spells(t, 1 + n, n, max) && max < min
  }

  /** A stream that does not: it is too short, or the upper end is below the lower one. */
  ghost predicate NoRange(t: seq<byte>, n: nat) {
    || |t| < 1 + n
    || (t[0] == 0 && |t| < 1 + 2 * n)
    || (t[0] == 0 && exists min, max :: UpsideDown(t, n, min, max))
  }

  /** What was read of a stream that promised so many ranges: each range where the one before ends, and all of them
      unless no range stands there. */
  ghost predicate ReadAs(t: seq<byte>, n: nat, count: nat, run: Run)
    decreases count
  {
    if count == 0 then run == Run(true, [])
    else if NoRange(t, n) then run == Run(false, [])
    else
      && run.ranges != [] && BeginsWith(t, n, run.ranges[0])
      && var used := if t[0] != 0 then 1 + n else 1 + 2 * n;
         used <= |t| && ReadAs(t[used..], n, count - 1, Run(run.ok, run.ranges[1..]))
  }

  lemma RangeRead(t: seq<byte>, n: nat)
    ensures Decode(t, n).Bad? <==> NoRange(t, n)
    ensures Decode(t, n).Decoded? ==>
              && BeginsWith(t, n, Decode(t, n).range)
              && Decode(t, n).used == if t[0] != 0 then 1 + n else 1 + 2 * n
  {
    hide Value, Spells;
    if |t| >= 1 + n {
      SpellsValue(t, 1, n, Value(t[1..1 + n]));
      if t[0] == 0 && |t| >= 1 + 2 * n {
        assert t[1 + n..1 + 2 * n] == t[1 + n..1 + n + n];
        SpellsValue(t, 1 + n, n, Value(t[1 + n..1 + n + n]));
        var low, high := Value(t[1..1 + n]), Value(t[1 + n..1 + n + n]);
        if high < low {
          assert UpsideDown(t, n, low, high);
        }
        forall min, max | UpsideDown(t, n, min, max) ensures min == low && max == high {
          SpellsValue(t, 1, n, min);
          SpellsValue(t, 1 + n, n, max);
        }
      }
    }
  }

  /** Deserialize reads every stream like that. */
  lemma {:induction false} StreamRead(t: seq<byte>, n: nat, count: nat)
    ensures ReadAs(t, n, count, DecodedRun(t, n, count))
    decreases count
  {
    hide Decode, BeginsWith, NoRange;
    if count > 0 {
      RangeRead(t, n);
      var d := Decode(t, n);
      if d.Decoded? {
        StreamRead(t[d.used..], n, count - 1);
        var run := DecodedRun(t, n, count);
        var more := DecodedRun(t[d.used..], n, count - 1);
        assert run.ranges[1..] == more.ranges;
      }
    }
  }

  /** The count that Deserialize goes by. */
  lemma CountRead(t: seq<byte>)
    requires |t| >= 2
    ensures Value(t[..2]) == 0x100 * (t[0] as nat) + t[1]
  {
    var a, b := t[..2], [t[0]];
    assert a[..|a| - 1] == b && b[..|b| - 1] == [];
    assert Value(b) == t[0];
  }
}
