/** The base64 codec of `bin2ascii.h` (section 4 of RFC 4648), on the 8-bit characters of its strings. */
module Base64 {

  datatype Result<T> = Ok(value: T) | Err(error: Error)

  datatype Error = InvalidSize | InvalidData(quad: seq<bv8>)

  /** The character '='. */
  const PAD: bv8 := 0x3d

  /** The encoder's table: A-Z, a-z, 0-9, + and /. */
  function Symbol(n: bv8): bv8
    requires n < 64
  {
    if n < 26 then 0x41 + n
    else if n < 52 then 0x61 + (n - 26)
    else if n < 62 then 0x30 + (n - 52)
    else if n == 62 then 0x2b
    else 0x2f
  }

  /** The decoder's table: 0x80 marks a character that may not occur, and the padding counts as zero. */
  function Lookup(c: bv8): bv8 {
    if 0x41 <= c <= 0x5a then c - 0x41
    else if 0x61 <= c <= 0x7a then c - 0x61 + 26
    else if 0x30 <= c <= 0x39 then c - 0x30 + 52
    else if c == 0x2b then 62
    else if c == 0x2f then 63
    else if c == PAD then 0
    else 0x80
  }

  /** On the alphabet the two tables are each other's inverse. */
  lemma TablesInverse(c: bv8)
    ensures c < 64 ==> Lookup(Symbol(c)) == c && Symbol(c) != PAD
    ensures Lookup(c) & 0x80 == 0 && c != PAD ==> Lookup(c) < 64 && Symbol(Lookup(c)) == c
  {
  }

  // ----- groups of three bytes and four characters -----

  function WithByte(n: bv32, b: bv8, shift: bv32): bv32
    requires shift <= 16
  {
    n | ((b as bv32) << shift)
  }

  function Group(b0: bv8, b1: bv8, b2: bv8): bv32 {
    WithByte(WithByte(WithByte(0, b0, 16), b1, 8), b2, 0)
  }

  function Sixth(n: bv32, shift: bv32): (r: bv8)
    requires shift <= 18
    ensures r < 64
  {
    (((n >> shift) & 0xff) as bv8) & 0x3f
  }

  function Joined(n0: bv8, n1: bv8, n2: bv8, n3: bv8): bv32 {
    ((n0 as bv32) << 18) | ((n1 as bv32) << 12) | ((n2 as bv32) << 6) | (n3 as bv32)
  }

  function Eighth(n: bv32, shift: bv32): bv8
    requires shift <= 16
  {
    ((n >> shift) & 0xff) as bv8
  }

  function Rejoined(n: bv32): bv32 {
    Joined(Sixth(n, 18), Sixth(n, 12), Sixth(n, 6), Sixth(n, 0))
  }

  /** Joining what 24 bits were cut into gives them back. */
  lemma RejoinedSame(n: bv32)
    ensures Rejoined(n) == n & 0xffffff
  {
  }

  lemma GroupParts(b0: bv8, b1: bv8, b2: bv8)
    ensures Group(b0, b1, b2) & 0xffffff == Group(b0, b1, b2)
    ensures Eighth(Group(b0, b1, b2), 16) == b0
    ensures Eighth(Group(b0, b1, b2), 8) == b1
    ensures Eighth(Group(b0, b1, b2), 0) == b2
  {
  }

  /** Joining what a group was cut into gives its bytes back. */
  lemma GroupJoins(b0: bv8, b1: bv8, b2: bv8)
    ensures var m := Rejoined(Group(b0, b1, b2));
            Eighth(m, 16) == b0 && Eighth(m, 8) == b1 && Eighth(m, 0) == b2
  {
    hide *;
    RejoinedSame(Group(b0, b1, b2));
    GroupParts(b0, b1, b2);
  }

  /** A byte that is not there leaves zero bits. */
  lemma MissingBits(b0: bv8, b1: bv8, b2: bv8)
    ensures b2 == 0 ==> Sixth(Group(b0, b1, b2), 0) == 0
    ensures b2 == 0 ==> Sixth(Group(b0, b1, b2), 6) & 0x03 == 0
    ensures b1 == b2 == 0 ==> Sixth(Group(b0, b1, b2), 6) == 0
    ensures b1 == b2 == 0 ==> Sixth(Group(b0, b1, b2), 12) & 0x0f == 0
  {
  }

  /** Cutting what was joined gives the four values back. */
  lemma JoinedCuts(n0: bv8, n1: bv8, n2: bv8, n3: bv8)
    requires n0 < 64 && n1 < 64 && n2 < 64 && n3 < 64
    ensures var m := Joined(n0, n1, n2, n3);
            var n := Group(Eighth(m, 16), Eighth(m, 8), Eighth(m, 0));
            Sixth(n, 18) == n0 && Sixth(n, 12) == n1 && Sixth(n, 6) == n2 && Sixth(n, 0) == n3
    ensures n3 == 0 && n2 & 0x03 == 0 ==> Eighth(Joined(n0, n1, n2, n3), 0) == 0
    ensures n3 == n2 == 0 && n1 & 0x0f == 0 ==> Eighth(Joined(n0, n1, n2, n3), 8) == 0
  {
  }

  // ----- what encoding and decoding mean -----

  function ByteAt(s: seq<bv8>, k: nat): bv8 {
    if k < |s| then s[k] else 0
  }

  /** The characters for the first three bytes, fewer when there are fewer bytes. */
  function FirstSymbols(s: seq<bv8>): seq<bv8>
    requires s != []
  {
    var n := Group(s[0], ByteAt(s, 1), ByteAt(s, 2));
    [Symbol(Sixth(n, 18)), Symbol(Sixth(n, 12))]
    + (if |s| > 1 then [Symbol(Sixth(n, 6))] else [])
    + (if |s| > 2 then [Symbol(Sixth(n, 0))] else [])
  }

  function Rest(s: seq<bv8>, k: nat): seq<bv8> {
    if k < |s| then s[k..] else []
  }

  function Symbols(s: seq<bv8>): (r: seq<bv8>)
    ensures |r| == |s| / 3 * 4 + (if |s| % 3 == 0 then 0 else |s| % 3 + 1)
    decreases |s|
  {
    if s == [] then [] else FirstSymbols(s) + Symbols(Rest(s, 3))
  }

  function Padding(n: nat): seq<bv8> {
    seq(n, _ => PAD)
  }

  function Encoded(s: seq<bv8>): seq<bv8> {
    Symbols(s) + Padding((3 - |s| % 3) % 3)
  }

  predicate Bad(t: seq<bv8>)
    requires |t| >= 4
  {
    0x80 & (Lookup(t[0]) | Lookup(t[1]) | Lookup(t[2]) | Lookup(t[3])) != 0
  }

  function FirstBytes(t: seq<bv8>): seq<bv8>
    requires |t| >= 4
  {
    var n := Joined(Lookup(t[0]), Lookup(t[1]), Lookup(t[2]), Lookup(t[3]));
    [Eighth(n, 16)]
    + (if t[2] != PAD then [Eighth(n, 8)] else [])
    + (if t[3] != PAD then [Eighth(n, 0)] else [])
  }

  function Prepended(s: seq<bv8>, r: Result<seq<bv8>>): Result<seq<bv8>> {
    match r
    case Ok(value) => Ok(s + value)
    case Err(_) => r
  }

  function Quads(t: seq<bv8>): Result<seq<bv8>>
    requires |t| % 4 == 0
  {
    if t == [] then Ok([])
    else if Bad(t) then Err(InvalidData(t[..4]))
    else Prepended(FirstBytes(t), Quads(t[4..]))
  }

  function Decoded(t: seq<bv8>): Result<seq<bv8>> {
    if |t| % 4 != 0 then Err(InvalidSize) else Quads(t)
  }

  // ----- the loops -----

  lemma WithNothing(n: bv32)
    ensures WithByte(n, 0, 8) == n && WithByte(n, 0, 0) == n
  {
  }

  method JoinBytes(s: seq<bv8>, i: nat) returns (n: bv32)
    requires i < |s|
    ensures n == Group(s[i..][0], ByteAt(s[i..], 1), ByteAt(s[i..], 2))
  {
    hide WithByte;
    n := WithByte(0, s[i], 16);
    WithNothing(n);
    if i + 1 < |s| { n := WithByte(n, s[i + 1], 8); }
    WithNothing(n);
    if i + 2 < |s| { n := WithByte(n, s[i + 2], 0); }
  }

  /** The characters for the bytes from index `i` on, at most three of them. */
  method EncodeGroup(s: seq<bv8>, i: nat) returns (r: seq<bv8>)
    requires i < |s|
    ensures r == FirstSymbols(s[i..])
  {
    hide Symbol, Sixth, Group;
    var n := JoinBytes(s, i);
    var n0, n1, n2, n3 := Sixth(n, 18), Sixth(n, 12), Sixth(n, 6), Sixth(n, 0);
    r := [Symbol(n0)];
    r := r + [Symbol(n1)];
    if i + 1 < |s| { r := r + [Symbol(n2)]; }
    if i + 2 < |s| { r := r + [Symbol(n3)]; }
  }

  /** `r` is the encoding of all before index `i`. */
  ghost predicate EncodedUpTo(s: seq<bv8>, i: nat, r: seq<bv8>) {
    Symbols(s) == r + Symbols(Rest(s, i))
  }

  lemma NothingEncoded(s: seq<bv8>)
    ensures EncodedUpTo(s, 0, [])
  {
  }

  lemma GroupEncoded(s: seq<bv8>, i: nat, r: seq<bv8>)
    requires i < |s| && EncodedUpTo(s, i, r)
    ensures EncodedUpTo(s, i + 3, r + FirstSymbols(s[i..]))
  {
    hide FirstSymbols;
    assert Rest(s[i..], 3) == Rest(s, i + 3);
    assert r + (FirstSymbols(s[i..]) + Symbols(Rest(s, i + 3))) ==
           r + FirstSymbols(s[i..]) + Symbols(Rest(s, i + 3));
  }

  lemma AllEncoded(s: seq<bv8>, i: nat, r: seq<bv8>)
    requires i >= |s| && EncodedUpTo(s, i, r)
    ensures r + Padding((3 - |s| % 3) % 3) == Encoded(s)
  {
  }

  method Encode(s: seq<bv8>) returns (r: seq<bv8>)
    ensures r == Encoded(s)
  {
    hide *;
    r := [];
    NothingEncoded(s);
    var i := 0;
    while i < |s|
      invariant 0 <= i && EncodedUpTo(s, i, r)
    {
      var group := EncodeGroup(s, i);
      GroupEncoded(s, i, r);
      r := r + group;
      i := i + 3;
    }
    AllEncoded(s, i, r);
    r := Pad(r, (3 - |s| % 3) % 3);
  }

  /** The loop that pads. */
  method Pad(symbols: seq<bv8>, n: nat) returns (r: seq<bv8>)
    ensures r == symbols + Padding(n)
  {
    r := symbols;
    var i := 0;
    while i < n
      invariant i <= n && r == symbols + Padding(i)
    {
      r := r + [PAD];
      i := i + 1;
    }
  }

  /** The bytes of the four characters from index `i` on. */
  method DecodeQuad(s: seq<bv8>, i: nat) returns (r: Result<seq<bv8>>)
    requires i + 4 <= |s|
    ensures r == if Bad(s[i..]) then Err(InvalidData(s[i..][..4])) else Ok(FirstBytes(s[i..]))
  {
    hide Lookup, Joined, Eighth;
    var n0, n1, n2, n3 := Lookup(s[i]), Lookup(s[i + 1]), Lookup(s[i + 2]), Lookup(s[i + 3]);
    if 0x80 & (n0 | n1 | n2 | n3) != 0 {
      assert s[i..][..4] == s[i..i + 4];
      return Err(InvalidData(s[i..i + 4]));
    }
    var n := Joined(n0, n1, n2, n3);
    var bytes := [Eighth(n, 16)];
    if s[i + 2] != PAD { bytes := bytes + [Eighth(n, 8)]; }
    if s[i + 3] != PAD { bytes := bytes + [Eighth(n, 0)]; }
    assert bytes == FirstBytes(s[i..]);
    r := Ok(bytes);
  }

  method Decode(s: seq<bv8>) returns (r: Result<seq<bv8>>)
    ensures r == Decoded(s)
  {
    hide Bad, FirstBytes, Prepended;
    if |s| == 0 {
      return Ok([]);
    }
    if |s| % 4 != 0 {
      return Err(InvalidSize);
    }
    var bytes := [];
    var i := 0;
    PrependedNothing(Quads(s));
    assert s[0..] == s;
    while i < |s|
      invariant 0 <= i <= |s| && i % 4 == 0
      invariant Quads(s) == Prepended(bytes, Quads(s[i..]))
    {
      var quad := DecodeQuad(s, i);
      if quad.Err? {
        PrependedError(bytes, quad.error);
        return quad;
      }
      assert s[i..][4..] == s[i + 4..];
      PrependedTwice(bytes, quad.value, Quads(s[i + 4..]));
      bytes := bytes + quad.value;
      i := i + 4;
    }
    PrependedAll(bytes);
    r := Ok(bytes);
  }

  lemma PrependedNothing(r: Result<seq<bv8>>)
    ensures Prepended([], r) == r
  {
    if r.Ok? {
      assert [] + r.value == r.value;
    }
  }

  lemma PrependedAll(a: seq<bv8>)
    ensures Prepended(a, Ok([])) == Ok(a)
  {
    assert a + [] == a;
  }

  lemma PrependedError(a: seq<bv8>, error: Error)
    ensures Prepended(a, Err(error)) == Err(error)
  {
  }

  lemma PrependedTwice(a: seq<bv8>, b: seq<bv8>, r: Result<seq<bv8>>)
    ensures Prepended(a, Prepended(b, r)) == Prepended(a + b, r)
  {
    if r.Ok? {
      assert a + (b + r.value) == a + b + r.value;
    }
  }

  // ----- the laws -----

  /** Four characters for every three bytes begun. */
  lemma EncodedLength(s: seq<bv8>)
    ensures |Encoded(s)| == 4 * ((|s| + 2) / 3)
  {
    assert |Symbols(s)| == |s| / 3 * 4 + (if |s| % 3 == 0 then 0 else |s| % 3 + 1);
  }

  /** The encoding goes group by group. */
  lemma EncodedSplits(s: seq<bv8>)
    requires |s| > 3
    ensures Encoded(s) == FirstSymbols(s) + Encoded(s[3..]) && |FirstSymbols(s)| == 4
  {
    hide Symbol, Sixth, Group;
    assert (|s| - 3) % 3 == |s| % 3;
  }

  /** The four characters of a last group. */
  lemma LastText(s: seq<bv8>)
    requires 0 < |s| <= 3
    ensures Encoded(s) == FirstSymbols(s) + Padding(3 - |s|)
    ensures var n := Group(s[0], ByteAt(s, 1), ByteAt(s, 2));
            Encoded(s) == [Symbol(Sixth(n, 18)), Symbol(Sixth(n, 12)),
                           if |s| > 1 then Symbol(Sixth(n, 6)) else PAD,
                           if |s| > 2 then Symbol(Sixth(n, 0)) else PAD]
  {
    hide Symbol, Sixth, Group;
    assert Rest(s, 3) == [];
  }

  /** One group and its padding. */
  lemma LastGroup(s: seq<bv8>)
    requires 0 < |s| <= 3
    ensures Encoded(s) == FirstSymbols(s) + Padding(3 - |s|) && |Encoded(s)| == 4
    ensures !Bad(Encoded(s)) && FirstBytes(Encoded(s)) == s && CanonicalLast(Encoded(s))
  {
    hide Symbol, Sixth, Group, Joined, Eighth, Lookup, Encoded, Symbols, FirstSymbols, Padding;
    var n := Group(s[0], ByteAt(s, 1), ByteAt(s, 2));
    LastText(s);
    GroupJoins(s[0], ByteAt(s, 1), ByteAt(s, 2));
    MissingBits(s[0], ByteAt(s, 1), ByteAt(s, 2));
    TablesInverse(Sixth(n, 18));
    TablesInverse(Sixth(n, 12));
    TablesInverse(Sixth(n, 6));
    TablesInverse(Sixth(n, 0));
    PadIsZero();
    SmallIsKnown(Sixth(n, 18), Sixth(n, 12), Sixth(n, 6), Sixth(n, 0));
  }

  lemma PadIsZero()
    ensures Lookup(PAD) == 0
  {
  }

  lemma SmallIsKnown(n0: bv8, n1: bv8, n2: bv8, n3: bv8)
    requires n0 < 64 && n1 < 64 && n2 < 64 && n3 < 64
    ensures 0x80 & (n0 | n1 | n2 | n3) == 0
  {
  }

  /** A group of three full bytes. */
  lemma FullGroup(s: seq<bv8>, t: seq<bv8>)
    requires |s| >= 3 && |t| >= 4 && t[..4] == FirstSymbols(s)
    ensures !Bad(t) && FirstBytes(t) == s[..3] && Full(t)
  {
    LastGroup(s[..3]);
    assert FirstSymbols(s[..3]) == FirstSymbols(s);
    assert FirstSymbols(s[..3]) + Padding(0) == t[..4];
  }

  lemma OneQuad(t: seq<bv8>)
    requires |t| == 4 && !Bad(t)
    ensures Decoded(t) == Ok(FirstBytes(t))
  {
    hide Bad, FirstBytes, Prepended;
    assert t[4..] == [];
    assert Quads([]) == Ok([]);
    PrependedAll(FirstBytes(t));
  }

  /** Decoding accepts every encoding and gives back what was encoded. */
  lemma {:induction false} DecodeEncoded(s: seq<bv8>)
    ensures Decoded(Encoded(s)) == Ok(s)
  {
    hide FirstSymbols, FirstBytes, Bad, Full;
    EncodedLength(s);
    var t := Encoded(s);
    if s == [] {
      assert t == [];
    } else if |s| <= 3 {
      LastGroup(s);
      OneQuad(t);
    } else {
      EncodedSplits(s);
      assert t[..4] == FirstSymbols(s) && t[4..] == Encoded(s[3..]);
      FullGroup(s, t);
      DecodeEncoded(s[3..]);
      assert s[..3] + s[3..] == s;
    }
  }

  predicate InAlphabet(c: bv8) {
    Lookup(c) & 0x80 == 0 && c != PAD
  }

  predicate Full(t: seq<bv8>)
    requires |t| >= 4
  {
    InAlphabet(t[0]) && InAlphabet(t[1]) && InAlphabet(t[2]) && InAlphabet(t[3])
  }

  /** A last quad: full, or padded with the bits that encode nothing being zero. */
  predicate CanonicalLast(t: seq<bv8>)
    requires |t| == 4
  {
    || Full(t)
    || (InAlphabet(t[0]) && InAlphabet(t[1]) && InAlphabet(t[2]) && Lookup(t[2]) & 0x03 == 0 && t[3] == PAD)
    || (InAlphabet(t[0]) && InAlphabet(t[1]) && Lookup(t[1]) & 0x0f == 0 && t[2] == PAD && t[3] == PAD)
  }

  /** Padding and zero bits only where the standard has them. */
  predicate Canonical(t: seq<bv8>) {
    || t == []
    || (|t| == 4 && CanonicalLast(t))
    || (|t| > 4 && Full(t) && Canonical(t[4..]))
  }

  /** Whatever is encoded, the text is canonical. */
  lemma {:induction false} EncodedIsCanonical(s: seq<bv8>)
    ensures Canonical(Encoded(s))
  {
    hide FirstSymbols, FirstBytes, Bad, Full, CanonicalLast;
    var t := Encoded(s);
    EncodedLength(s);
    if s == [] {
    } else if |s| <= 3 {
      LastGroup(s);
    } else {
      EncodedSplits(s);
      assert t[..4] == FirstSymbols(s) && t[4..] == Encoded(s[3..]);
      FullGroup(s, t);
      EncodedIsCanonical(s[3..]);
      EncodedLength(s[3..]);
    }
  }

  /** A canonical last quad is what its bytes are encoded as. */
  lemma LastQuad(t: seq<bv8>)
    requires |t| == 4 && CanonicalLast(t)
    ensures !Bad(t) && Encoded(FirstBytes(t)) == t && (Full(t) ==> |FirstBytes(t)| == 3)
  {
    hide Symbol, Sixth, Group, Joined, Eighth, Lookup;
    var n0, n1, n2, n3 := Lookup(t[0]), Lookup(t[1]), Lookup(t[2]), Lookup(t[3]);
    PadIsZero();
    TablesInverse(t[0]);
    TablesInverse(t[1]);
    TablesInverse(t[2]);
    TablesInverse(t[3]);
    SmallIsKnown(n0, n1, n2, n3);
    JoinedCuts(n0, n1, n2, n3);
    var s := FirstBytes(t);
    assert Rest(s, 3) == [];
  }

  lemma FullQuad(t: seq<bv8>)
    requires |t| > 4 && Full(t)
    ensures !Bad(t) && |FirstBytes(t)| == 3 && FirstSymbols(FirstBytes(t)) == t[..4]
  {
    hide Symbol, Sixth, Group, Joined, Eighth, Lookup;
    LastQuad(t[..4]);
    assert FirstBytes(t) == FirstBytes(t[..4]);
    assert Rest(FirstBytes(t), 3) == [];
    assert FirstSymbols(FirstBytes(t)) + Padding(0) == t[..4];
  }

  lemma {:induction false} CanonicalReencodes(t: seq<bv8>)
    requires Canonical(t)
    ensures Decoded(t).Ok? && Encoded(Decoded(t).value) == t
    ensures t != [] ==> Decoded(t).value != []
  {
    hide FirstSymbols, FirstBytes, Bad, Full, CanonicalLast;
    if t == [] {
    } else if |t| == 4 {
      LastQuad(t);
      OneQuad(t);
      assert FirstBytes(t) != [] by {
        EncodedLength(FirstBytes(t));
      }
    } else {
      CanonicalReencodes(t[4..]);
      FullQuad(t);
      var a, b := FirstBytes(t), Decoded(t[4..]).value;
      assert (a + b)[3..] == b;
      EncodedSplits(a + b);
      FirstThree(a, b);
    }
  }

  lemma FirstThree(a: seq<bv8>, b: seq<bv8>)
    requires |a| == 3
    ensures FirstSymbols(a + b) == FirstSymbols(a)
  {
    hide Symbol, Sixth, Group;
  }

  /** Encoding again gives back an accepted text if and only if that text is canonical: padding in the middle
      and stray bits are accepted too, but do not come back. */
  lemma EncodeDecoded(t: seq<bv8>)
    ensures (Decoded(t).Ok? && Encoded(Decoded(t).value) == t) <==> Canonical(t)
  {
    if Canonical(t) {
      CanonicalReencodes(t);
    } else if Decoded(t).Ok? {
      EncodedIsCanonical(Decoded(t).value);
    }
  }

  /** The text "QR==" is accepted, but its byte is encoded "QQ==". */
  lemma StrayBitsExample() returns (t: seq<bv8>)
    ensures t == [0x51, 0x52, PAD, PAD] && Decoded(t).Ok? && Encoded(Decoded(t).value) != t
  {
    t := [0x51, 0x52, PAD, PAD];
    assert Lookup(t[0]) == 16 && Lookup(t[1]) == 17 && Lookup(PAD) == 0;
    DecodeRefuses(t);
    EncodeDecoded(t);
  }

  /** Exactly which texts are refused, and on account of what: the first quad with a character that is neither
      in the alphabet nor padding. */
  lemma {:induction false} DecodeRefuses(t: seq<bv8>)
    ensures Decoded(t).Ok? <==> |t| % 4 == 0 && forall k :: 0 <= k < |t| ==> Lookup(t[k]) & 0x80 == 0
    decreases |t|
  {
    hide Lookup, FirstBytes;
    if |t| % 4 == 0 && t != [] {
      BadHasBad(Lookup(t[0]), Lookup(t[1]), Lookup(t[2]), Lookup(t[3]));
      DecodeRefuses(t[4..]);
      assert forall k :: 4 <= k < |t| ==> t[k] == t[4..][k - 4];
      assert forall k :: 0 <= k < |t| - 4 ==> t[4..][k] == t[k + 4];
    }
  }

  lemma BadHasBad(n0: bv8, n1: bv8, n2: bv8, n3: bv8)
    ensures 0x80 & (n0 | n1 | n2 | n3) == 0 <==>
            n0 & 0x80 == 0 && n1 & 0x80 == 0 && n2 & 0x80 == 0 && n3 & 0x80 == 0
  {
  }
}
