/** The base64 codec against section 4 of RFC 4648, put in numbers: which character stands where, and which bytes
    are meant by four characters. */
module Base64Standard {

  import opened Base64

  const UPPER := "ABCDEFGHIJKLMNOPQRSTUVWXYZ"
  const LOWER := "abcdefghijklmnopqrstuvwxyz"
  const DIGITS := "0123456789"

  /** Table 1 of the standard. */
  const ALPHABET: string := UPPER + LOWER + DIGITS + "+/"

  function InTable(n: bv8): char
    requires n < 64
  {
    ALPHABET[n as int]
  }

  function CharOf(b: bv8): char {
    b as char
  }

  lemma SymbolIs(n: bv8)
    requires n < 64
    ensures CharOf(Symbol(n)) == InTable(n)
  {
    if n < 26 {
      assert ALPHABET[n as int] == UPPER[n as int];
    } else if n < 52 {
      assert ALPHABET[n as int] == LOWER[n as int - 26];
    } else if n < 62 {
      assert ALPHABET[n as int] == DIGITS[n as int - 52];
    }
  }

  lemma PadIs()
    ensures CharOf(PAD) == '='
  {
  }

  /** The decoder's table holds the place of a character in the alphabet, and marks all that are neither there nor
      padding. */
  lemma LookupIs(c: bv8)
    ensures Lookup(c) < 64 && CharOf(c) != '=' ==> InTable(Lookup(c)) == CharOf(c)
    ensures CharOf(c) == '=' ==> Lookup(c) == 0
    ensures Lookup(c) < 64 || Lookup(c) == 0x80
    ensures Lookup(c) & 0x80 == 0 <==> Lookup(c) < 64
  {
    hide Lookup, Symbol, CharOf, InTable;
    PadIs();
    TablesInverse(c);
    LookupSmall(c);
    if Lookup(c) < 64 {
      SymbolIs(Lookup(c));
    }
  }

  lemma LookupFinds(c: bv8, n: bv8)
    requires n < 64 && InTable(n) == CharOf(c)
    ensures Lookup(c) == n && CharOf(c) != '='
  {
    hide Lookup, Symbol, CharOf, InTable;
    TablesInverse(n);
    SymbolIs(n);
    SameChar(Symbol(n), c);
    PadIs();
    if CharOf(c) == '=' {
      SameChar(c, PAD);
    }
  }

  lemma SameChar(a: bv8, b: bv8)
    requires CharOf(a) == CharOf(b)
    ensures a == b
  {
  }

  lemma LookupSmall(c: bv8)
    ensures Lookup(c) < 64 || Lookup(c) == 0x80
    ensures Lookup(c) & 0x80 == 0 <==> Lookup(c) < 64
    ensures CharOf(c) == '=' ==> Lookup(c) == 0
  {
  }

  // ----- encoding -----

  /** Three bytes as a number of 24 bits, the first byte first. */
  function Number(b0: bv8, b1: bv8, b2: bv8): bv32 {
    0x10000 * (b0 as bv32) + 0x100 * (b1 as bv32) + (b2 as bv32)
  }

  /** The number of the group at an index; a byte that is not there is zero. */
  function Bits(s: seq<bv8>, j: nat): bv32 {
    Number(ByteAt(s, j), ByteAt(s, j + 1), ByteAt(s, j + 2))
  }

  /** The i-th of the four digits of a number of 24 bits to the base 64. */
  function Digit(n: bv32, i: nat): (d: bv8)
    ensures d < 64
  {
    if i == 0 then (n / 0x40000 % 64) as bv8
    else if i == 1 then (n / 0x1000 % 64) as bv8
    else if i == 2 then (n / 0x40 % 64) as bv8
    else (n % 64) as bv8
  }

  /** The k-th character of the encoding: of each group of three bytes there are as many characters as bytes and one
      more; padding makes up four. */
  function Standard(s: seq<bv8>, k: nat): char {
    var j, i := k / 4 * 3, k % 4;
    if j + i > |s| then '=' else InTable(Digit(Bits(s, j), i))
  }

  lemma GroupIsSum(b0: bv8, b1: bv8, b2: bv8)
    ensures Group(b0, b1, b2) == Number(b0, b1, b2) < 0x1000000
  {
  }

  lemma CutIsDigit(n: bv32)
    requires n < 0x1000000
    ensures Sixth(n, 18) == Digit(n, 0)
    ensures Sixth(n, 12) == Digit(n, 1)
    ensures Sixth(n, 6) == Digit(n, 2)
    ensures Sixth(n, 0) == Digit(n, 3)
  {
  }

  /** The four digits make up the number. */
  lemma DigitsSum(n: bv32)
    requires n < 0x1000000
    ensures n == 0x40000 * (Digit(n, 0) as bv32) + 0x1000 * (Digit(n, 1) as bv32) + 0x40 * (Digit(n, 2) as bv32)
                 + (Digit(n, 3) as bv32)
  {
  }

  /** The characters of one group. */
  lemma FirstGroup(s: seq<bv8>)
    requires s != []
    ensures var t := FirstSymbols(s);
            && |t| == (if |s| < 3 then |s| + 1 else 4)
            && forall k :: 0 <= k < |t| ==> CharOf(t[k]) == InTable(Digit(Bits(s, 0), k))
  {
    hide Symbol, Sixth, Group, Digit, CharOf, InTable, Number;
    var n := Group(s[0], ByteAt(s, 1), ByteAt(s, 2));
    GroupIsSum(s[0], ByteAt(s, 1), ByteAt(s, 2));
    CutIsDigit(n);
    SymbolIs(Sixth(n, 18));
    SymbolIs(Sixth(n, 12));
    SymbolIs(Sixth(n, 6));
    SymbolIs(Sixth(n, 0));
  }

  /** Every character of the encoding is the one that the standard has there, and there are no more. */
  lemma {:induction false} EncodedStandard(s: seq<bv8>)
    ensures |Encoded(s)| == 4 * ((|s| + 2) / 3)
    ensures forall k :: 0 <= k < |Encoded(s)| ==> CharOf(Encoded(s)[k]) == Standard(s, k)
    decreases |s|
  {
    hide Encoded, FirstSymbols, Digit, Symbol, CharOf, InTable, Bits, Standard;
    EncodedLength(s);
    if s != [] && |s| <= 3 {
      OneGroup(s);
    } else if s != [] {
      EncodedSplits(s);
      EncodedStandard(s[3..]);
      forall k | 0 <= k < |Encoded(s)| ensures CharOf(Encoded(s)[k]) == Standard(s, k) {
        if k < 4 {
          GroupStandard(s, k);
        } else {
          ThreeLess(s, k);
        }
      }
    }
  }

  lemma GroupStandard(s: seq<bv8>, k: nat)
    requires s != [] && k < |FirstSymbols(s)| && k < 4
    ensures CharOf(FirstSymbols(s)[k]) == Standard(s, k)
  {
    hide FirstSymbols, Digit, Symbol, CharOf, InTable, Bits;
    FirstGroup(s);
  }

  lemma OneGroup(s: seq<bv8>)
    requires 0 < |s| <= 3
    ensures forall k :: 0 <= k < |Encoded(s)| ==> CharOf(Encoded(s)[k]) == Standard(s, k)
  {
    hide Encoded, FirstSymbols, Digit, Symbol, CharOf, InTable, Bits;
    FirstGroup(s);
    LastGroup(s);
    PadIs();
    forall k | 0 <= k < |Encoded(s)| ensures CharOf(Encoded(s)[k]) == Standard(s, k) {
      if k < |FirstSymbols(s)| {
        GroupStandard(s, k);
      }
    }
  }

  lemma ThreeLess(s: seq<bv8>, k: nat)
    requires |s| > 3 && k >= 4
    ensures Standard(s, k) == Standard(s[3..], k - 4)
  {
    hide Digit, InTable, Bits;
    assert k / 4 == (k - 4) / 4 + 1 && k % 4 == (k - 4) % 4;
    BitsLater(s, (k - 4) / 4 * 3);
  }

  lemma BitsLater(s: seq<bv8>, j: nat)
    requires |s| > 3
    ensures Bits(s, j + 3) == Bits(s[3..], j)
  {
    hide ByteAt, Number;
    ByteLater(s, j);
    ByteLater(s, j + 1);
    ByteLater(s, j + 2);
  }

  lemma ByteLater(s: seq<bv8>, k: nat)
    requires |s| > 3
    ensures ByteAt(s, k + 3) == ByteAt(s[3..], k)
  {
  }

  // ----- decoding -----

  /** Is the character of the alphabet or padding? */
  ghost predicate Known(c: bv8) {
    CharOf(c) == '=' || exists n: bv8 :: n < 64 && InTable(n) == CharOf(c)
  }

  /** The place of a character in the alphabet; padding counts as zero. */
  ghost function PlaceOf(c: bv8): (n: bv8)
    ensures n < 64
  {
    if n: bv8 :| n < 64 && InTable(n) == CharOf(c) then n else 0
  }

  lemma LookupMeans(c: bv8)
    ensures Known(c) <==> Lookup(c) & 0x80 == 0
    ensures Known(c) ==> Lookup(c) == PlaceOf(c)
  {
    hide Lookup, CharOf, InTable;
    LookupIs(c);
    forall n: bv8 | n < 64 && InTable(n) == CharOf(c) ensures Lookup(c) == n && CharOf(c) != '=' {
      LookupFinds(c, n);
    }
  }

  /** Four characters as a number of 24 bits, the first character first. */
  ghost function Spelt(t: seq<bv8>): bv32
    requires |t| >= 4
  {
    0x40000 * (PlaceOf(t[0]) as bv32) + 0x1000 * (PlaceOf(t[1]) as bv32) + 0x40 * (PlaceOf(t[2]) as bv32)
    + (PlaceOf(t[3]) as bv32)
  }

  function HighByte(n: bv32): bv8 { (n / 0x10000 % 0x100) as bv8 }

  function MiddleByte(n: bv32): bv8 { (n / 0x100 % 0x100) as bv8 }

  function LowByte(n: bv32): bv8 { (n % 0x100) as bv8 }

  /** The bytes that a text stands for, quad by quad: one for certain, and one more for the third and the fourth
      character each unless it is padding. */
  ghost function Meant(t: seq<bv8>): seq<bv8> {
    if |t| < 4 then []
    else
      [HighByte(Spelt(t))] + (if CharOf(t[2]) == '=' then [] else [MiddleByte(Spelt(t))])
      + (if CharOf(t[3]) == '=' then [] else [LowByte(Spelt(t))]) + Meant(t[4..])
  }

  lemma JoinedIsSum(n0: bv8, n1: bv8, n2: bv8, n3: bv8)
    requires n0 < 64 && n1 < 64 && n2 < 64 && n3 < 64
    ensures Joined(n0, n1, n2, n3) ==
            0x40000 * (n0 as bv32) + 0x1000 * (n1 as bv32) + 0x40 * (n2 as bv32) + (n3 as bv32)
  {
  }

  lemma EighthIs(n: bv32)
    ensures Eighth(n, 16) == HighByte(n)
    ensures Eighth(n, 8) == MiddleByte(n)
    ensures Eighth(n, 0) == LowByte(n)
  {
  }

  lemma FirstQuad(t: seq<bv8>)
    requires |t| >= 4
    ensures Bad(t) <==> !(Known(t[0]) && Known(t[1]) && Known(t[2]) && Known(t[3]))
    ensures !Bad(t) ==> Meant(t) == FirstBytes(t) + Meant(t[4..])
  {
    hide Lookup, CharOf, InTable, Known, PlaceOf, Joined, Eighth, HighByte, MiddleByte, LowByte, Spelt;
    LookupMeans(t[0]);
    LookupMeans(t[1]);
    LookupMeans(t[2]);
    LookupMeans(t[3]);
    BadHasBad(Lookup(t[0]), Lookup(t[1]), Lookup(t[2]), Lookup(t[3]));
    if !Bad(t) {
      SpeltIsJoined(t);
      EighthIs(Spelt(t));
      IsPad(t[2]);
      IsPad(t[3]);
    }
  }

  lemma SpeltIsJoined(t: seq<bv8>)
    requires |t| >= 4
    ensures Spelt(t) == Joined(PlaceOf(t[0]), PlaceOf(t[1]), PlaceOf(t[2]), PlaceOf(t[3]))
  {
    hide PlaceOf, Joined;
    JoinedIsSum(PlaceOf(t[0]), PlaceOf(t[1]), PlaceOf(t[2]), PlaceOf(t[3]));
  }

  lemma IsPad(c: bv8)
    ensures c == PAD <==> CharOf(c) == '='
  {
  }

  ghost predicate AllKnown(t: seq<bv8>) {
    forall k :: 0 <= k < |t| ==> Known(t[k])
  }

  /** The quad at an index has a character that is not known. */
  ghost predicate Refused(t: seq<bv8>, k: nat) {
    k + 4 <= |t| && !(Known(t[k]) && Known(t[k + 1]) && Known(t[k + 2]) && Known(t[k + 3]))
  }

  /** What decoding answers: a text that is not of whole quads has the wrong size; of the others the first quad with a
      character that is not known is reported, and if there is none the bytes meant are given. */
  lemma {:induction false} DecodedStandard(t: seq<bv8>) returns (k: nat)
    ensures |t| % 4 != 0 ==> Decoded(t) == Err(InvalidSize)
    ensures |t| % 4 == 0 && AllKnown(t) ==> Decoded(t) == Ok(Meant(t))
    ensures |t| % 4 == 0 && !AllKnown(t) ==>
              k % 4 == 0 && Refused(t, k) && AllKnown(t[..k]) && Decoded(t) == Err(InvalidData(t[k..k + 4]))
    decreases |t|
  {
    hide Bad, FirstBytes, Known, Meant, Decoded, AllKnown, Refused;
    DecodedStep(t);
    k := 0;
    if t == [] {
      NothingMeant();
    } else if |t| % 4 == 0 {
      FirstQuad(t);
      FirstKnown(t);
      if !Bad(t) {
        var rest := DecodedStandard(t[4..]);
        if !AllKnown(t) {
          k := rest + 4;
          LaterRefused(t, rest);
        }
      }
    }
  }

  lemma FirstKnown(t: seq<bv8>)
    requires |t| >= 4
    ensures AllKnown(t) <==> Known(t[0]) && Known(t[1]) && Known(t[2]) && Known(t[3]) && AllKnown(t[4..])
    ensures Refused(t, 0) <==> !(Known(t[0]) && Known(t[1]) && Known(t[2]) && Known(t[3]))
    ensures AllKnown(t[..0])
  {
    hide Known;
    assert forall k :: 4 <= k < |t| ==> t[k] == t[4..][k - 4];
  }

  lemma LaterRefused(t: seq<bv8>, k: nat)
    requires |t| >= 4 && Refused(t[4..], k) && AllKnown(t[4..][..k]) && !Refused(t, 0)
    ensures k + 8 <= |t| && Refused(t, k + 4) && AllKnown(t[..k + 4]) && t[4..][k..k + 4] == t[k + 4..k + 8]
  {
    hide Known;
    var u := t[..k + 4];
    forall j | 0 <= j < |u| ensures Known(u[j]) {
      if j >= 4 {
        assert u[j] == t[4..][..k][j - 4];
      }
    }
  }

  lemma DecodedStep(t: seq<bv8>)
    ensures |t| % 4 != 0 ==> Decoded(t) == Err(InvalidSize)
    ensures t == [] ==> Decoded(t) == Ok([])
    ensures |t| % 4 == 0 && t != [] ==>
              if Bad(t) then Decoded(t) == Err(InvalidData(t[0..4]))
              else
                match Decoded(t[4..])
                case Ok(value) => Decoded(t) == Ok(FirstBytes(t) + value)
                case Err(error) => Decoded(t) == Err(error)
  {
    hide Bad, FirstBytes;
    if |t| >= 4 {
      assert t[..4] == t[0..4];
    }
  }

  lemma NothingMeant()
    ensures Meant([]) == [] && AllKnown([])
  {
  }
}
