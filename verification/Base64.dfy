/** Base64 (section 4 of RFC 4648) as the mbed TLS encoder and decoder implement it. */
module Base64 {
  import opened Bytes

  const CR: byte := 13
  const LF: byte := 10
  const SPACE: byte := 32
  const PAD: byte := 61

  function EncChar(v: int): byte
    requires 0 <= v < 64
  {
    if v < 26 then 65 + v
    else if v < 52 then 97 + v - 26
    else if v < 62 then 48 + v - 52
    else if v == 62 then 43
    else 47
  }

  /** Digit value, or -1. */
  function DecValue(c: byte): (v: int)
    ensures -1 <= v < 64
  {
    if 65 <= c <= 90 then c - 65
    else if 97 <= c <= 122 then c - 97 + 26
    else if 48 <= c <= 57 then c - 48 + 52
    else if c == 43 then 62
    else if c == 47 then 63
    else -1
  }

  /** Four characters for a full group of three octets. */
  function Group(a: byte, b: byte, c: byte): (g: Octets)
    ensures |g| == 4
  {
    [EncChar(a / 4), EncChar(a % 4 * 16 + b / 16), EncChar(b % 16 * 4 + c / 64), EncChar(c % 64)]
  }

  function Encode(src: Octets): (e: Octets)
    ensures |e| == 4 * ((|src| + 2) / 3)
  {
    if |src| == 0 then []
    else if |src| == 1 then [EncChar(src[0] / 4), EncChar(src[0] % 4 * 16), PAD, PAD]
    else if |src| == 2 then
      [EncChar(src[0] / 4), EncChar(src[0] % 4 * 16 + src[1] / 16), EncChar(src[1] % 16 * 4), PAD]
    else Group(src[0], src[1], src[2]) + Encode(src[3..])
  }

  // ---- The alphabet -----------------------------------------------------------

  /** Table 1 in section 4 of RFC 4648. */
  const ALPHABET: string := "ABCDEFGHIJKLM" + "NOPQRSTUVWXYZ" + "abcdefghijklm" + "nopqrstuvwxyz" + "0123456789+/"

  lemma AlphabetSize()
    ensures |ALPHABET| == 64
  {
  }

  /** Every digit is written as the table's character. */
  lemma EncCharIsAlphabet(v: int)
    requires 0 <= v < 64
    ensures |ALPHABET| == 64 && EncChar(v) == ALPHABET[v] as int
  {
    hide EncChar;
    AlphabetSize();
    if v < 13 { FirstRow(v); }
    else if v < 26 { SecondRow(v); }
    else if v < 39 { ThirdRow(v); }
    else if v < 52 { FourthRow(v); }
    else { FifthRow(v); }
  }

  lemma FirstRow(v: int)
    requires 0 <= v < 13
    ensures EncChar(v) == ALPHABET[v] as int
  {
    var row := "ABCDEFGHIJKLM";
    assert ALPHABET[v] == row[v - 0];
    assert v == 0 || v == 1 || v == 2 || v == 3 || v == 4 || v == 5 || v == 6
           || v == 7 || v == 8 || v == 9 || v == 10 || v == 11 || v == 12;
  }

  lemma SecondRow(v: int)
    requires 13 <= v < 26
    ensures EncChar(v) == ALPHABET[v] as int
  {
    var row := "NOPQRSTUVWXYZ";
    assert ALPHABET[v] == row[v - 13];
    assert v == 13 || v == 14 || v == 15 || v == 16 || v == 17 || v == 18 || v == 19
           || v == 20 || v == 21 || v == 22 || v == 23 || v == 24 || v == 25;
  }

  lemma ThirdRow(v: int)
    requires 26 <= v < 39
    ensures EncChar(v) == ALPHABET[v] as int
  {
    var row := "abcdefghijklm";
    assert ALPHABET[v] == row[v - 26];
    assert v == 26 || v == 27 || v == 28 || v == 29 || v == 30 || v == 31 || v == 32
           || v == 33 || v == 34 || v == 35 || v == 36 || v == 37 || v == 38;
  }

  lemma FourthRow(v: int)
    requires 39 <= v < 52
    ensures EncChar(v) == ALPHABET[v] as int
  {
    var row := "nopqrstuvwxyz";
    assert ALPHABET[v] == row[v - 39];
    assert v == 39 || v == 40 || v == 41 || v == 42 || v == 43 || v == 44 || v == 45
           || v == 46 || v == 47 || v == 48 || v == 49 || v == 50 || v == 51;
  }

  lemma FifthRow(v: int)
    requires 52 <= v < 64
    ensures EncChar(v) == ALPHABET[v] as int
  {
    var row := "0123456789+/";
    assert ALPHABET[v] == row[v - 52];
    assert v == 52 || v == 53 || v == 54 || v == 55 || v == 56 || v == 57 || v == 58
           || v == 59 || v == 60 || v == 61 || v == 62 || v == 63;
  }

  lemma EncOfDec(c: byte)
    ensures DecValue(c) >= 0 ==> EncChar(DecValue(c)) == c
  {
  }

  /** A character has a digit value exactly when it is in the table, and then its place there. */
  lemma DecValueIff(c: byte, v: int)
    requires 0 <= v < 64
    ensures |ALPHABET| == 64 && (DecValue(c) == v <==> c == ALPHABET[v] as int)
    ensures DecValue(c) == -1 <==> forall i :: 0 <= i < |ALPHABET| ==> c != ALPHABET[i] as int
  {
    hide EncChar, DecValue;
    AlphabetSize();
    EncCharIsAlphabet(v);
    EncOfDec(c);
    forall i | 0 <= i < 64 ensures DecValue(EncChar(i)) == i && EncChar(i) == ALPHABET[i] as int {
      DecEnc(i);
      EncCharIsAlphabet(i);
    }
  }

  /** The four digits of a 24-bit group. */
  function Sextet(x: nat, k: nat): (v: int)
    requires x < 0x100_0000 && k < 4
    ensures 0 <= v < 64
  {
    if k == 0 then x / 0x4_0000 else if k == 1 then x / 0x1000 % 64 else if k == 2 then x / 64 % 64 else x % 64
  }

  /** The k-th octet of src, and zero bits behind its end. */
  function OctetAt(src: Octets, k: nat): byte {
    if k < |src| then src[k] else 0
  }

  /** The i-th group of three octets as a number. */
  function GroupBits(src: Octets, i: nat): (x: nat)
    ensures x < 0x100_0000
  {
    OctetAt(src, 3 * i) * 0x1_0000 + OctetAt(src, 3 * i + 1) * 0x100 + OctetAt(src, 3 * i + 2)
  }

  lemma GroupSextets(a: byte, b: byte, c: byte)
    ensures var x := a * 0x1_0000 + b * 0x100 + c;
            forall k :: 0 <= k < 4 ==> Sextet(x, k) == GroupDigit(a, b, c, k)
  {
    var x := a * 0x1_0000 + b * 0x100 + c;
    assert a == 4 * (a / 4) + a % 4 && b == 16 * (b / 16) + b % 16 && c == 64 * (c / 64) + c % 64;
    assert x == (a / 4) * 0x4_0000 + (a % 4 * 16 + b / 16) * 0x1000 + (b % 16 * 4 + c / 64) * 64 + c % 64;
    SextetsOfSum(a / 4, a % 4 * 16 + b / 16, b % 16 * 4 + c / 64, c % 64);
  }

  lemma SextetsOfSum(p: int, q: int, r: int, s: int)
    requires 0 <= p < 64 && 0 <= q < 64 && 0 <= r < 64 && 0 <= s < 64
    ensures var x := p * 0x4_0000 + q * 0x1000 + r * 64 + s;
            Sextet(x, 0) == p && Sextet(x, 1) == q && Sextet(x, 2) == r && Sextet(x, 3) == s
  {
    var x := p * 0x4_0000 + q * 0x1000 + r * 64 + s;
    assert x / 64 == p * 0x1000 + q * 64 + r;
    assert x / 0x1000 == p * 64 + q;
  }

  /** Character j of an encoding, by the bits of the source: the table's entry for the j-th six bits, or padding where
      the source has no bits any more. */
  ghost predicate BitsAt(src: Octets, j: nat)
    requires j < |Encode(src)|
  {
    |ALPHABET| == 64 &&
    Encode(src)[j] == if 6 * j < 8 * |src| then ALPHABET[Sextet(GroupBits(src, j / 4), j % 4)] as int else '=' as int
  }

  lemma EncodeFirst(src: Octets, j: nat)
    requires j < 4 && j < |Encode(src)|
    ensures BitsAt(src, j)
  {
    AlphabetSize();
    GroupSextets(OctetAt(src, 0), OctetAt(src, 1), OctetAt(src, 2));
    assert src != [] && j / 4 == 0 && j % 4 == j;
    hide EncChar, Sextet, GroupDigit, Encode;
    EncCharIsAlphabet(Sextet(GroupBits(src, 0), j));
    FirstQuad(src, j);
  }

  lemma EncodeNext(src: Octets, j: nat)
    requires 4 <= j < |Encode(src)| && |src| > 3 && j - 4 < |Encode(src[3..])| && BitsAt(src[3..], j - 4)
    ensures BitsAt(src, j)
  {
    EncodeTail(src, j);
    assert (j - 4) / 4 == j / 4 - 1 && (j - 4) % 4 == j % 4;
    hide Encode, GroupBits, Sextet;
    GroupBitsShift(src, j / 4);
  }

  lemma {:induction false} EncodeBits(src: Octets, j: nat)
    requires j < |Encode(src)|
    ensures BitsAt(src, j)
  {
    hide BitsAt;
    if j < 4 {
      EncodeFirst(src, j);
    } else {
      EncodeTail(src, j);
      EncodeBits(src[3..], j - 4);
      EncodeNext(src, j);
    }
  }

  /** The digits of one group. */
  function GroupDigit(a: byte, b: byte, c: byte, k: nat): (v: int)
    requires k < 4
    ensures 0 <= v < 64
  {
    if k == 0 then a / 4 else if k == 1 then a % 4 * 16 + b / 16 else if k == 2 then b % 16 * 4 + c / 64 else c % 64
  }

  lemma FirstQuad(src: Octets, j: nat)
    requires src != [] && j < 4
    ensures Encode(src)[j] == if 6 * j < 8 * |src|
                              then EncChar(GroupDigit(OctetAt(src, 0), OctetAt(src, 1), OctetAt(src, 2), j)) else PAD
  {
    hide EncChar, GroupDigit;
    if |src| == 1 {
      OneQuad(src, j);
    } else if |src| == 2 {
      TwoQuad(src, j);
    } else {
      LongQuad(src, j);
    }
  }

  lemma LastDigits(a: byte, b: byte)
    ensures GroupDigit(a, 0, 0, 0) == a / 4 && GroupDigit(a, 0, 0, 1) == a % 4 * 16
    ensures GroupDigit(a, b, 0, 0) == a / 4 && GroupDigit(a, b, 0, 1) == a % 4 * 16 + b / 16
    ensures GroupDigit(a, b, 0, 2) == b % 16 * 4
  {
  }

  lemma OneQuad(src: Octets, j: nat)
    requires |src| == 1 && j < 4
    ensures Encode(src)[j] == if j < 2 then EncChar(GroupDigit(src[0], 0, 0, j)) else PAD
  {
    LastDigits(src[0], 0);
    hide EncChar, GroupDigit;
    assert j == 0 || j == 1 || j == 2 || j == 3;
  }

  lemma TwoQuad(src: Octets, j: nat)
    requires |src| == 2 && j < 4
    ensures Encode(src)[j] == if j < 3 then EncChar(GroupDigit(src[0], src[1], 0, j)) else PAD
  {
    LastDigits(src[0], src[1]);
    hide EncChar, GroupDigit;
    assert j == 0 || j == 1 || j == 2 || j == 3;
  }

  lemma LongQuad(src: Octets, j: nat)
    requires 3 <= |src| && j < 4
    ensures Encode(src)[j] == EncChar(GroupDigit(src[0], src[1], src[2], j))
  {
    var g, rest := Group(src[0], src[1], src[2]), Encode(src[3..]);
    assert Encode(src) == g + rest;
    hide EncChar, Encode;
    assert (g + rest)[j] == g[j];
    assert j == 0 || j == 1 || j == 2 || j == 3;
  }

  lemma EncodeTail(src: Octets, j: nat)
    requires 4 <= j < |Encode(src)|
    ensures |src| > 3 && j - 4 < |Encode(src[3..])| && Encode(src)[j] == Encode(src[3..])[j - 4]
  {
    hide EncChar;
    assert |src| > 3;
    var g, rest := Group(src[0], src[1], src[2]), Encode(src[3..]);
    assert Encode(src) == g + rest;
  }

  lemma GroupBitsShift(src: Octets, i: nat)
    requires |src| >= 3 && i > 0
    ensures GroupBits(src[3..], i - 1) == GroupBits(src, i)
  {
    assert forall k: nat :: OctetAt(src[3..], k) == OctetAt(src, k + 3);
  }

  /** As every certificate starts. */
  lemma EncodeExample()
    ensures Encode([0x30, 0x82, 0x01]) == ['M' as int, 'I' as int, 'I' as int, 'B' as int]
  {
  }

  // ---- Decoder ------------------------------------------------------------

  datatype Scanned = Valid(digits: nat, equals: nat) | Invalid

  function SkipSpaces(s: Octets): (r: Octets)
    ensures |r| <= |s|
  {
    if s != [] && s[0] == SPACE then SkipSpaces(s[1..]) else s
  }

  /** First pass: validity, and the number of digits and padding characters. */
  function Scan(src: Octets, n: nat, equals: nat): (r: Scanned)
    requires equals <= 2
    ensures r.Valid? ==> n <= r.digits <= n + |src| && equals <= r.equals <= 2
    decreases |src|
  {
    var s := SkipSpaces(src);
    if s == [] then Valid(n, equals)
    else if |s| >= 2 && s[0] == CR && s[1] == LF then Scan(s[1..], n, equals)
    else if s[0] == LF then Scan(s[1..], n, equals)
    else if |s| < |src| then Invalid
    else if s[0] > 127 then Invalid
    else if s[0] == PAD then if equals == 2 then Invalid else Scan(s[1..], n + 1, equals + 1)
    else if equals != 0 || DecValue(s[0]) < 0 then Invalid
    else Scan(s[1..], n + 1, 0)
  }

  function Digits(src: Octets): (d: Octets)
    ensures |d| <= |src|
  {
    if src == [] then []
    else if src[0] == CR || src[0] == LF || src[0] == SPACE then Digits(src[1..])
    else [src[0]] + Digits(src[1..])
  }

  function Digit(c: byte): (v: int)
    ensures 0 <= v < 64
  {
    if DecValue(c) < 0 then 0 else DecValue(c)
  }

  function Pads(c: byte): nat { if c == PAD then 1 else 0 }

  /** Second pass: three octets per complete quad, less the padding seen so far. */
  function Quads(d: Octets, equals: nat): (o: Octets)
    ensures |o| <= |d|
    decreases |d|
  {
    if |d| < 4 then []
    else
      var e := equals + Pads(d[0]) + Pads(d[1]) + Pads(d[2]) + Pads(d[3]);
      var x := ((Digit(d[0]) * 64 + Digit(d[1])) * 64 + Digit(d[2])) * 64 + Digit(d[3]);
      [Byte(x, 2)] + (if e <= 1 then [Byte(x, 1)] else []) + (if e == 0 then [Byte(x, 0)] else [])
      + Quads(d[4..], e)
  }

  function Byte(x: nat, k: nat): byte {
    if k == 0 then x % 0x100 else if k == 1 then x / 0x100 % 0x100 else x / 0x100 / 0x100 % 0x100
  }

  /** The decoder's size estimate for n characters of which some are padding. */
  function Needed(n: nat, equals: nat): int {
    6 * (n / 8) + (6 * (n % 8) + 7) / 8 - equals
  }

  datatype Decoded = Out(octets: Octets) | BadChar | TooSmall

  function Decode(src: Octets, room: nat): (r: Decoded)
    ensures r.Out? ==> |r.octets| <= |src|
  {
    match Scan(src, 0, 0)
    case Invalid => BadChar
    case Valid(n, equals) =>
      if n == 0 then Out([])
      else if room < Needed(n, equals) then TooSmall
      else Out(Quads(Digits(src), 0))
  }

  // ---- Length of the output ---------------------------------------------------

  function PadCount(d: Octets): nat {
    if d == [] then 0 else Pads(d[0]) + PadCount(d[1..])
  }

  /** Padding characters only at the end. */
  predicate PaddedAtEnd(d: Octets) {
    forall i, j :: 0 <= i < j < |d| && d[i] == PAD ==> d[j] == PAD
  }

  lemma {:induction false} DigitsSkipSpaces(src: Octets)
    ensures Digits(SkipSpaces(src)) == Digits(src)
  {
    if src != [] && src[0] == SPACE {
      DigitsSkipSpaces(src[1..]);
    }
  }

  /** The first pass counts exactly the characters that the second one takes, and finds the padding at their end. */
  lemma {:induction false} ScanCounts(src: Octets, n: nat, equals: nat)
    requires equals <= 2 && Scan(src, n, equals).Valid?
    ensures var d, r := Digits(src), Scan(src, n, equals);
            && r.digits == n + |d| && r.equals == equals + PadCount(d) && PaddedAtEnd(d)
            && (equals > 0 ==> PadCount(d) == |d|)
    decreases |src|
  {
    hide DecValue;
    var s := SkipSpaces(src);
    DigitsSkipSpaces(src);
    if s != [] {
      if |s| >= 2 && s[0] == CR && s[1] == LF {
        ScanCounts(s[1..], n, equals);
      } else if s[0] == LF {
        ScanCounts(s[1..], n, equals);
      } else if s[0] == PAD {
        ScanCounts(s[1..], n + 1, equals + 1);
        AllPads(Digits(s[1..]));
      } else {
        DigitsAreNotBlank(s[0]);
        ScanCounts(s[1..], n + 1, 0);
      }
    }
  }

  lemma DigitsAreNotBlank(c: byte)
    ensures DecValue(c) >= 0 ==> c != CR && c != LF && c != SPACE && c != PAD
  {
  }

  /** Neither a digit nor padding nor blank. */
  predicate Foreign(c: byte) {
    DecValue(c) < 0 && c != PAD && c != CR && c != LF && c != SPACE
  }

  lemma {:induction false} ForeignBehindSpaces(src: Octets, i: nat)
    requires i < |src| && Foreign(src[i])
    ensures var s := SkipSpaces(src); i >= |src| - |s| && s[i - (|src| - |s|)] == src[i]
  {
    if src[0] == SPACE {
      ForeignBehindSpaces(src[1..], i - 1);
    }
  }

  lemma {:induction false} ScanRefuses(src: Octets, i: nat, n: nat, equals: nat)
    requires i < |src| && Foreign(src[i]) && equals <= 2
    ensures Scan(src, n, equals) == Invalid
    decreases |src|
  {
    var s := SkipSpaces(src);
    ForeignBehindSpaces(src, i);
    var k := i - (|src| - |s|);
    hide DecValue;
    if k > 0 {
      assert s[1..][k - 1] == s[k];
      if |s| >= 2 && s[0] == CR && s[1] == LF {
        ScanRefuses(s[1..], k - 1, n, equals);
      } else if s[0] == LF {
        ScanRefuses(s[1..], k - 1, n, equals);
      } else if s[0] == PAD {
        if equals < 2 {
          ScanRefuses(s[1..], k - 1, n + 1, equals + 1);
        }
      } else {
        ScanRefuses(s[1..], k - 1, n + 1, 0);
      }
    }
  }

  /** A character that is not in the table, wherever it stands, makes the decoder refuse everything. */
  lemma ForeignIsRefused(src: Octets, i: nat, room: nat)
    requires i < |src| && (forall k :: 0 <= k < |ALPHABET| ==> src[i] != ALPHABET[k] as int)
    requires src[i] != '=' as int && src[i] != 13 && src[i] != 10 && src[i] != 32
    ensures Decode(src, room) == BadChar
  {
    DecValueIff(src[i], 0);
    ScanRefuses(src, i, 0, 0);
  }

  lemma {:induction false} AllPads(d: Octets)
    ensures PadCount(d) <= |d|
    ensures PadCount(d) == |d| ==> forall i :: 0 <= i < |d| ==> d[i] == PAD
  {
    if d != [] {
      AllPads(d[1..]);
    }
  }

  lemma PadCountQuad(d: Octets)
    requires |d| >= 4
    ensures PadCount(d) == Pads(d[0]) + Pads(d[1]) + Pads(d[2]) + Pads(d[3]) + PadCount(d[4..])
  {
    assert d[1..][1..] == d[2..] && d[2..][1..] == d[3..] && d[3..][1..] == d[4..];
  }

  /** Octets that n characters with the given padding decode to: padding beyond the last incomplete quad is taken
      off the complete ones. */
  function DecodedLength(n: nat, equals: nat): int {
    3 * (n / 4) - if equals > n % 4 then equals - n % 4 else 0
  }

  lemma {:induction false} PadsAreLast(d: Octets, k: nat)
    requires PaddedAtEnd(d) && k < |d| && d[k] == PAD
    ensures PadCount(d) >= |d| - k
  {
    if k > 0 {
      PadsAreLast(d[1..], k - 1);
    } else {
      if |d| > 1 {
        assert d[1] == PAD;
        PadsAreLast(d[1..], 0);
      }
    }
  }

  lemma DecodedLengthStep(n: nat, equals: nat)
    ensures DecodedLength(n + 4, equals) == 3 + DecodedLength(n, equals)
  {
    assert (n + 4) / 4 == n / 4 + 1 && (n + 4) % 4 == n % 4;
  }

  lemma DecodedLengthEnd(n: nat, equals: nat)
    requires n < 4
    ensures equals <= n ==> DecodedLength(n, equals) == 0
    ensures DecodedLength(n + 4, equals + n) == 3 - equals
  {
  }

  lemma {:induction false} QuadsLength(d: Octets, equals: nat)
    requires PaddedAtEnd(d) && equals + PadCount(d) <= 2 && (equals > 0 ==> PadCount(d) == |d|)
    ensures |Quads(d, equals)| == if equals == 0 then DecodedLength(|d|, PadCount(d)) else 0
    decreases |d|
  {
    hide Byte, Digit, DecodedLength;
    AllPads(d);
    if |d| < 4 {
      DecodedLengthEnd(|d|, PadCount(d));
    } else {
      var e := Pads(d[0]) + Pads(d[1]) + Pads(d[2]) + Pads(d[3]);
      FirstPaddedQuad(d);
      AllPads(d[4..]);
      QuadsLength(d[4..], e);
      if e > 0 {
        DecodedLengthEnd(|d[4..]|, e);
      } else {
        DecodedLengthStep(|d[4..]|, PadCount(d));
      }
    }
  }

  /** Once a quad contains padding, nothing but padding follows. */
  lemma FirstPaddedQuad(d: Octets)
    requires |d| >= 4 && PaddedAtEnd(d)
    ensures var e := Pads(d[0]) + Pads(d[1]) + Pads(d[2]) + Pads(d[3]);
            PadCount(d) == e + PadCount(d[4..]) && (e > 0 ==> PadCount(d[4..]) == |d[4..]|)
    ensures PaddedAtEnd(d[4..])
  {
    PadCountQuad(d);
    AllPads(d[4..]);
    var e := Pads(d[0]) + Pads(d[1]) + Pads(d[2]) + Pads(d[3]);
    if e > 0 && |d| > 4 {
      assert d[4..][0] == d[4] == PAD;
      PadsAreLast(d[4..], 0);
    }
  }

  /** The estimate is large enough, whatever the input: the decoder never writes past the room it was given. */
  lemma DecodedFits(src: Octets, room: nat)
    requires Decode(src, room).Out?
    ensures |Decode(src, room).octets| <= room
    ensures var r := Scan(src, 0, 0);
            r.Valid? && |Decode(src, room).octets| == DecodedLength(r.digits, r.equals)
  {
    var r := Scan(src, 0, 0);
    ScanCounts(src, 0, 0);
    AllPads(Digits(src));
    QuadsLength(Digits(src), 0);
  }

  // ---- Round trip -----------------------------------------------------------

  lemma DecEnc(v: int)
    requires 0 <= v < 64
    ensures DecValue(EncChar(v)) == v && EncChar(v) <= 127
    ensures EncChar(v) != PAD && EncChar(v) != CR && EncChar(v) != LF && EncChar(v) != SPACE
  {
  }

  lemma ScanDigit(v: int, rest: Octets, n: nat)
    requires 0 <= v < 64
    ensures Scan([EncChar(v)] + rest, n, 0) == Scan(rest, n + 1, 0)
    ensures Digits([EncChar(v)] + rest) == [EncChar(v)] + Digits(rest)
  {
    DecEnc(v);
    assert ([EncChar(v)] + rest)[1..] == rest;
  }

  lemma ScanDigits(a: int, b: int, rest: Octets, n: nat)
    requires 0 <= a < 64 && 0 <= b < 64
    ensures Scan([EncChar(a), EncChar(b)] + rest, n, 0) == Scan(rest, n + 2, 0)
    ensures Digits([EncChar(a), EncChar(b)] + rest) == [EncChar(a), EncChar(b)] + Digits(rest)
  {
    hide EncChar, Scan, Digits;
    ScanDigit(b, rest, n + 1);
    ScanDigit(a, [EncChar(b)] + rest, n);
    assert [EncChar(a), EncChar(b)] + rest == [EncChar(a)] + ([EncChar(b)] + rest);
    assert [EncChar(a), EncChar(b)] + Digits(rest) == [EncChar(a)] + ([EncChar(b)] + Digits(rest));
  }

  lemma ScanPad(rest: Octets, n: nat, equals: nat)
    requires equals < 2
    ensures Scan([PAD] + rest, n, equals) == Scan(rest, n + 1, equals + 1)
    ensures Digits([PAD] + rest) == [PAD] + Digits(rest)
  {
    assert ([PAD] + rest)[1..] == rest;
  }

  /** The padding of the last quad. */
  function Padding(n: nat): nat { (3 - n % 3) % 3 }

  lemma ScanOne(a: int, b: int, n: nat)
    requires 0 <= a < 64 && 0 <= b < 64
    ensures Scan([EncChar(a), EncChar(b), PAD, PAD], n, 0) == Valid(n + 4, 2)
    ensures Digits([EncChar(a), EncChar(b), PAD, PAD]) == [EncChar(a), EncChar(b), PAD, PAD]
  {
    hide EncChar;
    ScanPad([], n + 3, 1);
    ScanPad([PAD], n + 2, 0);
    ScanDigits(a, b, [PAD] + [PAD], n);
    assert [PAD] + [] == [PAD];
    assert [EncChar(a), EncChar(b)] + ([PAD] + [PAD]) == [EncChar(a), EncChar(b), PAD, PAD];
  }

  lemma ScanTwo(a: int, b: int, c: int, n: nat)
    requires 0 <= a < 64 && 0 <= b < 64 && 0 <= c < 64
    ensures Scan([EncChar(a), EncChar(b), EncChar(c), PAD], n, 0) == Valid(n + 4, 1)
    ensures Digits([EncChar(a), EncChar(b), EncChar(c), PAD]) == [EncChar(a), EncChar(b), EncChar(c), PAD]
  {
    hide EncChar;
    ScanPad([], n + 3, 0);
    ScanDigit(c, [PAD], n + 2);
    ScanDigits(a, b, [EncChar(c)] + [PAD], n);
    assert [PAD] + [] == [PAD];
    assert [EncChar(a), EncChar(b)] + ([EncChar(c)] + [PAD]) == [EncChar(a), EncChar(b), EncChar(c), PAD];
  }

  lemma ScanFour(a: int, b: int, c: int, d: int, rest: Octets, n: nat)
    requires 0 <= a < 64 && 0 <= b < 64 && 0 <= c < 64 && 0 <= d < 64
    ensures var g := [EncChar(a), EncChar(b), EncChar(c), EncChar(d)];
            Scan(g + rest, n, 0) == Scan(rest, n + 4, 0) && Digits(g + rest) == g + Digits(rest)
  {
    hide EncChar, Scan, Digits;
    ScanDigits(c, d, rest, n + 2);
    ScanDigits(a, b, [EncChar(c), EncChar(d)] + rest, n);
    var ab, cd := [EncChar(a), EncChar(b)], [EncChar(c), EncChar(d)];
    assert ab + (cd + rest) == [EncChar(a), EncChar(b), EncChar(c), EncChar(d)] + rest;
    assert ab + (cd + Digits(rest)) == [EncChar(a), EncChar(b), EncChar(c), EncChar(d)] + Digits(rest);
  }

  /** The last quad of an encoding. */
  lemma ScanTail(src: Octets, n: nat)
    requires 1 <= |src| <= 2
    ensures Scan(Encode(src), n, 0) == Valid(n + 4, Padding(|src|)) && Digits(Encode(src)) == Encode(src)
  {
    hide EncChar, Scan, Digits;
    if |src| == 1 {
      ScanOne(src[0] / 4, src[0] % 4 * 16, n);
    } else {
      ScanTwo(src[0] / 4, src[0] % 4 * 16 + src[1] / 16, src[1] % 16 * 4, n);
    }
  }

  lemma ScanGroup(a: byte, b: byte, c: byte, rest: Octets, n: nat)
    ensures Scan(Group(a, b, c) + rest, n, 0) == Scan(rest, n + 4, 0)
    ensures Digits(Group(a, b, c) + rest) == Group(a, b, c) + Digits(rest)
  {
    hide EncChar, Scan, Digits;
    ScanFour(a / 4, a % 4 * 16 + b / 16, b % 16 * 4 + c / 64, c % 64, rest, n);
  }

  lemma {:induction false} ScanEncode(src: Octets, n: nat)
    ensures Scan(Encode(src), n, 0) == Valid(n + |Encode(src)|, Padding(|src|))
    ensures Digits(Encode(src)) == Encode(src)
  {
    hide EncChar, Scan, Digits, Group;
    if |src| == 0 {
      ScanNothing(n);
    } else if |src| <= 2 {
      ScanTail(src, n);
    } else {
      ScanEncode(src[3..], n + 4);
      ScanGroup(src[0], src[1], src[2], Encode(src[3..]), n);
    }
  }

  lemma ScanNothing(n: nat)
    ensures Scan([], n, 0) == Valid(n, 0) && Digits([]) == []
  {
  }

  lemma QuadOfGroup(a: byte, b: byte, c: byte)
    ensures var x := ((a / 4 * 64 + (a % 4 * 16 + b / 16)) * 64 + (b % 16 * 4 + c / 64)) * 64 + c % 64;
            x == a * 0x10000 + b * 0x100 + c && Byte(x, 2) == a && Byte(x, 1) == b && Byte(x, 0) == c
  {
    assert a == 4 * (a / 4) + a % 4 && b == 16 * (b / 16) + b % 16 && c == 64 * (c / 64) + c % 64;
    BytesOfTriple(a, b, c);
  }

  lemma BytesOfTriple(a: byte, b: byte, c: byte)
    ensures var x := a * 0x10000 + b * 0x100 + c; Byte(x, 2) == a && Byte(x, 1) == b && Byte(x, 0) == c
  {
    var x := a * 0x10000 + b * 0x100 + c;
    assert x / 0x100 == a * 0x100 + b;
  }

  lemma QuadsStep(a: int, b: int, c: int, d: int, rest: Octets)
    requires 0 <= a < 64 && 0 <= b < 64 && 0 <= c < 64 && 0 <= d < 64
    ensures var x := ((a * 64 + b) * 64 + c) * 64 + d;
            Quads([EncChar(a), EncChar(b), EncChar(c), EncChar(d)] + rest, 0)
            == [Byte(x, 2), Byte(x, 1), Byte(x, 0)] + Quads(rest, 0)
  {
    hide EncChar, Byte;
    DecEnc(a); DecEnc(b); DecEnc(c); DecEnc(d);
    var s := [EncChar(a), EncChar(b), EncChar(c), EncChar(d)] + rest;
    assert s[4..] == rest;
  }

  lemma QuadsOne(a: int, b: int)
    requires 0 <= a < 64 && 0 <= b < 64
    ensures Quads([EncChar(a), EncChar(b), PAD, PAD], 0) == [Byte(((a * 64 + b) * 64 + 0) * 64 + 0, 2)]
  {
    hide EncChar, Byte;
    DecEnc(a); DecEnc(b);
  }

  lemma QuadsTwo(a: int, b: int, c: int)
    requires 0 <= a < 64 && 0 <= b < 64 && 0 <= c < 64
    ensures var x := ((a * 64 + b) * 64 + c) * 64 + 0;
            Quads([EncChar(a), EncChar(b), EncChar(c), PAD], 0) == [Byte(x, 2), Byte(x, 1)]
  {
    hide EncChar, Byte;
    DecEnc(a); DecEnc(b); DecEnc(c);
  }

  lemma {:induction false} QuadsEncode(src: Octets)
    ensures Quads(Encode(src), 0) == src
  {
    hide EncChar, Byte, Quads;
    if |src| == 0 {
      QuadsNothing();
    } else if |src| == 1 {
      QuadsOne(src[0] / 4, src[0] % 4 * 16);
      QuadOfGroup(src[0], 0, 0);
    } else if |src| == 2 {
      QuadsTwo(src[0] / 4, src[0] % 4 * 16 + src[1] / 16, src[1] % 16 * 4);
      QuadOfGroup(src[0], src[1], 0);
    } else {
      QuadsStep(src[0] / 4, src[0] % 4 * 16 + src[1] / 16, src[1] % 16 * 4 + src[2] / 64, src[2] % 64,
                Encode(src[3..]));
      QuadOfGroup(src[0], src[1], src[2]);
      QuadsEncode(src[3..]);
    }
  }

  lemma QuadsNothing()
    ensures Quads([], 0) == []
  {
  }

  lemma Eighths(m: nat, r: nat)
    requires r < 8
    ensures (8 * m + r) / 8 == m && (8 * m + r) % 8 == r
  {
  }

  lemma NeededEncode(n: nat)
    ensures Needed(4 * ((n + 2) / 3), Padding(n)) == n
  {
    var q := (n + 2) / 3;
    assert n == 3 * q - Padding(n);
    Eighths(q / 2, if q == 2 * (q / 2) then 0 else 4);
    assert 4 * q == 8 * (q / 2) + if q == 2 * (q / 2) then 0 else 4;
  }

  /** Decoding inverts encoding exactly when the room suffices. */
  lemma {:induction false} DecodeOfEncode(src: Octets, room: nat)
    ensures Decode(Encode(src), room) == if |src| <= room then Out(src) else TooSmall
  {
    ScanEncode(src, 0);
    QuadsEncode(src);
    NeededEncode(|src|);
  }
}
