/** The DER primitives of X.690 as the mbed TLS writer and reader implement them. */
module Asn1 {
  import opened Bytes

  const BUF_TOO_SMALL: int := -0x6C
  const OUT_OF_DATA: int := -0x60
  const UNEXPECTED_TAG: int := -0x62
  const INVALID_LENGTH: int := -0x64
  const LENGTH_MISMATCH: int := -0x66

  const TAG_INTEGER: byte := 0x02
  const TAG_BIT_STRING: byte := 0x03
  const TAG_OCTET_STRING: byte := 0x04
  const TAG_OID: byte := 0x06
  const TAG_SEQUENCE: byte := 0x30

  function Byte0(n: nat): byte { n % 0x100 }
  function Byte1(n: nat): byte { n / 0x100 % 0x100 }
  function Byte2(n: nat): byte { n / 0x100 / 0x100 % 0x100 }
  function Byte3(n: nat): byte { n / 0x100 / 0x100 / 0x100 % 0x100 }

  function Word(b3: int, b2: int, b1: int, b0: int): int {
    ((b3 * 0x100 + b2) * 0x100 + b1) * 0x100 + b0
  }

  lemma WordOfBytes(n: nat)
    requires n < SIZE_LIMIT
    ensures Word(Byte3(n), Byte2(n), Byte1(n), Byte0(n)) == n
    ensures n <= 0xFFFFFF ==> Byte3(n) == 0
    ensures n <= 0xFFFF ==> Byte2(n) == 0
  {
  }

  lemma BytesOfWord(b3: byte, b2: byte, b1: byte, b0: byte)
    ensures var n := Word(b3, b2, b1, b0);
            0 <= n < SIZE_LIMIT && Byte3(n) == b3 && Byte2(n) == b2 && Byte1(n) == b1 && Byte0(n) == b0
  {
  }

  /** Definite-form length octets of minimal size, X.690 sections 8.1.3 and 10.1. */
  function LenOctets(n: nat): (o: Octets)
    requires n < SIZE_LIMIT
    ensures 1 <= |o| <= 5
  {
    if n < 0x80 then [n]
    else if n <= 0xFF then [0x81, n]
    else if n <= 0xFFFF then [0x82, Byte1(n), Byte0(n)]
    else if n <= 0xFFFFFF then [0x83, Byte2(n), Byte1(n), Byte0(n)]
    else [0x84, Byte3(n), Byte2(n), Byte1(n), Byte0(n)]
  }

  function Tlv(tag: byte, contents: Octets): Octets
    requires |contents| < SIZE_LIMIT
  {
    [tag] + LenOctets(|contents|) + contents
  }

  lemma TlvLength(tag: byte, c: Octets)
    requires |c| < SIZE_LIMIT
    ensures |Tlv(tag, c)| == 1 + |LenOctets(|c|)| + |c|
  {
  }

  /** The buffer b after the octets o were written so that they end just before p. */
  function Prepend(b: Octets, p: nat, o: Octets): (r: Octets)
    requires |o| <= p <= |b|
    ensures |r| == |b|
  {
    b[..p - |o|] + o + b[p..]
  }

  /** Two buffers that differ at most in [lo, hi). */
  predicate SameOutside(a: Octets, b: Octets, lo: nat, hi: nat) {
    lo <= hi <= |a| == |b| && a[..lo] == b[..lo] && a[hi..] == b[hi..]
  }

  lemma SameOutsideRefl(b: Octets, lo: nat, hi: nat)
    requires lo <= hi <= |b|
    ensures SameOutside(b, b, lo, hi)
  {
  }

  lemma SameOutsideTrans(a: Octets, b: Octets, c: Octets, lo: nat, mid: nat, hi: nat)
    requires lo <= mid <= hi && SameOutside(a, b, lo, hi) && SameOutside(b, c, lo, mid)
    ensures SameOutside(a, c, lo, hi)
  {
    assert b[hi..] == b[mid..][hi - mid..];
    assert c[hi..] == c[mid..][hi - mid..];
  }

  lemma SameOutsideWiden(a: Octets, b: Octets, lo: nat, lo': nat, hi: nat)
    requires lo' <= lo && SameOutside(a, b, lo, hi)
    ensures SameOutside(a, b, lo', hi)
  {
    assert a[..lo'] == a[..lo][..lo'] && b[..lo'] == b[..lo][..lo'];
  }

  lemma SameOutsideSlice(a: Octets, b: Octets, lo: nat, hi: nat, i: nat, j: nat)
    requires SameOutside(a, b, lo, hi) && i <= j <= |a| && (j <= lo || hi <= i)
    ensures a[i..j] == b[i..j]
  {
    forall k | i <= k < j ensures a[k] == b[k] {
      if j <= lo {
        assert a[..lo][k] == b[..lo][k];
      } else {
        assert a[hi..][k - hi] == b[hi..][k - hi];
      }
    }
  }

  /** Prepending extends whatever span started at p and disturbs nothing outside its own octets. */
  lemma PrependSpan(b: Octets, p: nat, o: Octets, lo: nat, hi: nat)
    requires |o| <= p <= hi <= |b| && lo <= p - |o|
    ensures Prepend(b, p, o)[p - |o|..hi] == o + b[p..hi]
    ensures SameOutside(b, Prepend(b, p, o), lo, hi)
  {
  }

  lemma PrependPrepend(b: Octets, p: nat, o: Octets, o': Octets)
    requires |o'| + |o| <= p <= |b|
    ensures Prepend(Prepend(b, p, o), p - |o|, o') == Prepend(b, p, o' + o)
  {
  }

  /** Writes the octets o just before p, never going below start. */
  method WriteRaw(buf: array<byte>, p: nat, start: nat, o: Octets) returns (ret: int, q: nat)
    requires start <= p <= buf.Length
    modifies buf
    ensures if |o| <= p - start
            then ret == |o| && q == p - ret && buf[..] == Prepend(old(buf[..]), p, o)
            else ret == BUF_TOO_SMALL && q == p && buf[..] == old(buf[..])
  {
    if p - start < |o| { return BUF_TOO_SMALL, p; }
    q := p - |o|;
    forall i | 0 <= i < |o| {
      buf[q + i] := o[i];
    }
    return |o|, q;
  }

  method WriteLen(buf: array<byte>, p: nat, start: nat, len: nat) returns (ret: int, q: nat)
    requires start <= p <= buf.Length && len < SIZE_LIMIT
    modifies buf
    ensures if |LenOctets(len)| <= p - start
            then ret == |LenOctets(len)| && q == p - ret && buf[..] == Prepend(old(buf[..]), p, LenOctets(len))
            else ret == BUF_TOO_SMALL && q == p && buf[..] == old(buf[..])
  {
    ret, q := WriteRaw(buf, p, start, LenOctets(len));
  }

  method WriteTag(buf: array<byte>, p: nat, start: nat, tag: byte) returns (ret: int, q: nat)
    requires start <= p <= buf.Length
    modifies buf
    ensures if 1 <= p - start
            then ret == 1 && q == p - 1 && buf[..] == Prepend(old(buf[..]), p, [tag])
            else ret == BUF_TOO_SMALL && q == p && buf[..] == old(buf[..])
  {
    ret, q := WriteRaw(buf, p, start, [tag]);
  }

  /** Length and tag octets in front of len octets of contents that start at p. */
  method CloseTlv(buf: array<byte>, p: nat, start: nat, len: nat, tag: byte) returns (ret: int, q: nat)
    requires start <= p && p + len <= buf.Length && len < SIZE_LIMIT
    modifies buf
    ensures start <= q <= p && SameOutside(old(buf[..]), buf[..], start, p)
    ensures var t := Tlv(tag, old(buf[p..p + len]));
            if |t| - len <= p - start
            then ret == |t| && q == p + len - ret && buf[q..p + len] == t
            else ret == BUF_TOO_SMALL
  {
    hide LenOctets, Prepend, SameOutside;
    ghost var b, o := buf[..], LenOctets(len);
    SameOutsideRefl(b, start, p);
    var r1, p1 := WriteLen(buf, p, start, len);
    if r1 < 0 { return r1, p1; }
    PrependSpan(b, p, o, start, p);
    var r2, p2 := WriteTag(buf, p1, start, tag);
    if r2 < 0 { return r2, p2; }
    PrependPrepend(b, p, o, [tag]);
    PrependSpan(b, p, [tag] + o, start, p + len);
    PrependSpan(b, p, [tag] + o, start, p);
    return len + r1 + r2, p2;
  }

  datatype Parsed = Ok(len: nat, next: nat) | Err(code: int)

  /** Reads length octets at p; non-minimal forms are accepted. */
  function GetLen(s: Octets, p: nat): (r: Parsed)
    requires p <= |s|
    ensures r.Err? ==> r.code < 0
    ensures r.Ok? ==> p < r.next <= p + 5 && r.next + r.len <= |s| && r.len < SIZE_LIMIT
  {
    if |s| - p < 1 then Err(OUT_OF_DATA)
    else if s[p] < 0x80 then Bounded(s, s[p], p + 1)
    else
      match s[p] % 0x80
      case 1 => if |s| - p < 2 then Err(OUT_OF_DATA)
                else Bounded(s, Word(0, 0, 0, s[p + 1]), p + 2)
      case 2 => if |s| - p < 3 then Err(OUT_OF_DATA)
                else Bounded(s, Word(0, 0, s[p + 1], s[p + 2]), p + 3)
      case 3 => if |s| - p < 4 then Err(OUT_OF_DATA)
                else Bounded(s, Word(0, s[p + 1], s[p + 2], s[p + 3]), p + 4)
      case 4 => if |s| - p < 5 then Err(OUT_OF_DATA)
                else Bounded(s, Word(s[p + 1], s[p + 2], s[p + 3], s[p + 4]), p + 5)
      case _ => Err(INVALID_LENGTH)
  }

  function Bounded(s: Octets, len: nat, next: nat): Parsed
    requires next <= |s|
  {
    if len > |s| - next then Err(OUT_OF_DATA) else Ok(len, next)
  }

  function GetTag(s: Octets, p: nat, tag: byte): (r: Parsed)
    requires p <= |s|
    ensures r.Err? ==> r.code < 0
    ensures r.Ok? ==> p + 1 < r.next && r.next + r.len <= |s| && s[p] == tag
  {
    if |s| - p < 1 then Err(OUT_OF_DATA)
    else if s[p] != tag then Err(UNEXPECTED_TAG)
    else GetLen(s, p + 1)
  }

  /** t occurs in s at position p. */
  predicate At(s: Octets, p: nat, t: Octets) {
    p + |t| <= |s| && s[p..p + |t|] == t
  }

  lemma AtParts(s: Octets, p: nat, a: Octets, b: Octets)
    ensures At(s, p, a + b) <==> At(s, p, a) && At(s, p + |a|, b)
  {
    if At(s, p, a + b) {
      assert s[p..p + |a|] == (a + b)[..|a|];
      assert s[p + |a|..p + |a| + |b|] == (a + b)[|a|..];
    }
    if At(s, p, a) && At(s, p + |a|, b) {
      assert s[p..p + |a + b|] == s[p..p + |a|] + s[p + |a|..p + |a| + |b|];
    }
  }

  /** Element-wise reading of an occurrence of at most five octets. */
  lemma AtHead(s: Octets, p: nat, t: Octets)
    requires 1 <= |t| <= 5 && p + |t| <= |s|
    ensures At(s, p, t) <==>
            && s[p] == t[0]
            && (|t| > 1 ==> s[p + 1] == t[1])
            && (|t| > 2 ==> s[p + 2] == t[2])
            && (|t| > 3 ==> s[p + 3] == t[3])
            && (|t| > 4 ==> s[p + 4] == t[4])
  {
    var w := s[p..p + |t|];
    assert w[0] == s[p];
    assert |t| > 1 ==> w[1] == s[p + 1];
    assert |t| > 2 ==> w[2] == s[p + 2];
    assert |t| > 3 ==> w[3] == s[p + 3];
    assert |t| > 4 ==> w[4] == s[p + 4];
  }

  /** The reader inverts the writer's length octets. */
  lemma GetLenOfLenOctets(s: Octets, p: nat, n: nat)
    requires n < SIZE_LIMIT
    requires At(s, p, LenOctets(n)) && p + |LenOctets(n)| + n <= |s|
    ensures GetLen(s, p) == Ok(n, p + |LenOctets(n)|)
  {
    AtHead(s, p, LenOctets(n));
    WordOfBytes(n);
    var r := GetLen(s, p);
    if n < 0x80 {
    } else if n <= 0xFF {
      assert s[p] % 0x80 == 1 && Word(0, 0, 0, s[p + 1]) == n;
    } else if n <= 0xFFFF {
      assert s[p] % 0x80 == 2 && Word(0, 0, s[p + 1], s[p + 2]) == n;
    } else if n <= 0xFFFFFF {
      assert s[p] % 0x80 == 3 && Word(0, s[p + 1], s[p + 2], s[p + 3]) == n;
    } else {
      assert s[p] % 0x80 == 4 && Word(s[p + 1], s[p + 2], s[p + 3], s[p + 4]) == n;
    }
  }

  /** The reader returns the contents span of a written TLV. */
  lemma GetTagOfTlv(s: Octets, p: nat, tag: byte, c: Octets)
    requires |c| < SIZE_LIMIT && At(s, p, Tlv(tag, c))
    ensures var q := p + 1 + |LenOctets(|c|)|;
            GetTag(s, p, tag) == Ok(|c|, q) && At(s, q, c)
  {
    AtParts(s, p, [tag] + LenOctets(|c|), c);
    AtParts(s, p, [tag], LenOctets(|c|));
    assert s[p] == s[p..p + 1][0] == tag;
    GetLenOfLenOctets(s, p + 1, |c|);
  }

  // ---- What lengths and headers mean -------------------------------------------

  /** The k octets at p are definite-form length octets of n (X.690 section 8.1.3): one octet below 128, or an octet
      that tells how many follow and then the length in base 256, most significant octet first. At most four follow. */
  predicate LengthAt(s: Octets, p: nat, k: nat, n: nat) {
    && 1 <= k <= 5 && p + k <= |s|
    && if k == 1 then s[p] == n < 128 else s[p] == 128 + k - 1 && Value(s[p + 1..p + k]) == n
  }

  /** A tag octet and a length of n in k octets, with room for the contents. */
  predicate HeaderAt(s: Octets, p: nat, tag: byte, k: nat, n: nat) {
    p < |s| && s[p] == tag && LengthAt(s, p + 1, k, n) && p + 1 + k + n <= |s|
  }

  lemma ValueOfOctets(o: Octets)
    ensures |o| == 1 ==> Value(o) == Word(0, 0, 0, o[0])
    ensures |o| == 2 ==> Value(o) == Word(0, 0, o[0], o[1])
    ensures |o| == 3 ==> Value(o) == Word(0, o[0], o[1], o[2])
    ensures |o| == 4 ==> Value(o) == Word(o[0], o[1], o[2], o[3])
  {
    assert Value([]) == 0;
    if 1 <= |o| <= 4 {
      assert o[..1][..0] == [];
      assert Value(o[..1]) == o[0];
      if |o| >= 2 {
        assert o[..2][..1] == o[..1];
        assert Value(o[..2]) == Value(o[..1]) * 0x100 + o[1];
      }
      if |o| >= 3 {
        assert o[..3][..2] == o[..2];
        assert Value(o[..3]) == Value(o[..2]) * 0x100 + o[2];
      }
      if |o| >= 4 {
        assert o[..4][..3] == o[..3];
        assert Value(o[..4]) == Value(o[..3]) * 0x100 + o[3];
      }
      assert o[..|o|] == o;
    }
  }

  /** The reader returns a length exactly where the standard sees one and the contents fit. */
  lemma GetLenIff(s: Octets, p: nat, k: nat, n: nat)
    requires p <= |s|
    ensures GetLen(s, p) == Ok(n, p + k) <==> LengthAt(s, p, k, n) && p + k + n <= |s|
  {
    if 2 <= k <= 5 && p + k <= |s| {
      ValueOfOctets(s[p + 1..p + k]);
    }
    var r := GetLen(s, p);
    if r.Ok? && r == Ok(n, p + k) && k > 1 {
      assert s[p] % 0x80 == k - 1;
    }
  }

  /** The same for tag and length. */
  lemma GetTagIff(s: Octets, p: nat, tag: byte, k: nat, n: nat)
    requires p <= |s|
    ensures GetTag(s, p, tag) == Ok(n, p + 1 + k) <==> HeaderAt(s, p, tag, k, n)
  {
    hide GetLen, LengthAt;
    if p < |s| {
      GetLenIff(s, p + 1, k, n);
    }
  }

  /** Every accepted header has a form. */
  lemma GetTagForm(s: Octets, p: nat, tag: byte)
    requires p <= |s| && GetTag(s, p, tag).Ok?
    ensures var g := GetTag(s, p, tag);
            p + 2 <= g.next && HeaderAt(s, p, tag, g.next - p - 1, g.len)
  {
    hide GetLen;
    var g := GetTag(s, p, tag);
    GetTagIff(s, p, tag, g.next - p - 1, g.len);
  }

  /** Which error a missing header is answered with. */
  lemma GetTagErrors(s: Octets, p: nat, tag: byte)
    requires p <= |s| && GetTag(s, p, tag).Err?
    ensures GetTag(s, p, tag).code
            == if p < |s| && s[p] != tag then -0x62
               else if p + 1 < |s| && (s[p + 1] == 0x80 || s[p + 1] > 0x84) then -0x64
               else -0x60
  {
    if p + 1 < |s| && s[p] == tag && s[p + 1] >= 0x80 {
      assert s[p + 1] % 0x80 == s[p + 1] - 0x80;
    }
  }

  /** The writer's octets denote the length, and no other octets that do are fewer. */
  lemma LenOctetsMean(n: nat)
    requires n < SIZE_LIMIT
    ensures LengthAt(LenOctets(n), 0, |LenOctets(n)|, n)
    ensures forall s, p, k :: LengthAt(s, p, k, n) ==> |LenOctets(n)| <= k
  {
    var o := LenOctets(n);
    WordOfBytes(n);
    LengthOfForm(n);
    if |o| > 1 {
      ValueOfOctets(o[1..|o|]);
    }
    forall s, p, k | LengthAt(s, p, k, n) ensures |LenOctets(n)| <= k {
      if k > 1 {
        ValueOfOctets(s[p + 1..p + k]);
      }
    }
  }

  /** Length octets of the shortest form, as DER demands (X.690 section 10.1). */
  predicate MinimalLength(s: Octets, p: nat)
    requires p <= |s|
  {
    var r := GetLen(s, p);
    r.Ok? && match r.next - p
             case 1 => true
             case 2 => r.len >= 0x80
             case 3 => r.len >= 0x100
             case 4 => r.len >= 0x10000
             case _ => r.len >= 0x1000000
  }

  /** What the writer produces for a length of n, when it is read at p in a form of k octets. */
  lemma FormOfLength(s: Octets, p: nat, n: nat, k: nat)
    requires n < SIZE_LIMIT && p + k <= |s| && 1 <= k <= 5
    requires k == |LenOctets(n)|
    requires if k == 1 then s[p] == n else s[p] == 0x7F + k
    requires k > 1 ==> s[p + k - 1] == Byte0(n)
    requires k > 2 ==> s[p + k - 2] == Byte1(n)
    requires k > 3 ==> s[p + k - 3] == Byte2(n)
    requires k > 4 ==> s[p + k - 4] == Byte3(n)
    ensures At(s, p, LenOctets(n))
  {
    AtHead(s, p, LenOctets(n));
  }

  /** A form of k octets is the writer's form when its length needs as many. */
  lemma LengthOfForm(n: nat)
    requires n < SIZE_LIMIT
    ensures |LenOctets(n)| == 1 <==> n < 0x80
    ensures |LenOctets(n)| == 2 <==> 0x80 <= n < 0x100
    ensures |LenOctets(n)| == 3 <==> 0x100 <= n < 0x10000
    ensures |LenOctets(n)| == 4 <==> 0x10000 <= n < 0x1000000
    ensures |LenOctets(n)| == 5 <==> 0x1000000 <= n
    ensures LenOctets(n)[0] == if n < 0x80 then n else 0x7F + |LenOctets(n)|
  {
  }

  /** The octets that were read are those of the length, and the form tells how many there are. */
  lemma ReadForm(s: Octets, p: nat)
    requires p <= |s| && GetLen(s, p).Ok?
    ensures var n, k := GetLen(s, p).len, GetLen(s, p).next - p;
            && 1 <= k <= 5 && p + k <= |s|
            && (if k == 1 then s[p] == n < 0x80 else s[p] % 0x80 == k - 1 && s[p] >= 0x80)
            && (k == 2 ==> n < 0x100) && (k == 3 ==> n < 0x10000) && (k == 4 ==> n < 0x1000000)
            && (k > 1 ==> s[p + k - 1] == Byte0(n)) && (k > 2 ==> s[p + k - 2] == Byte1(n))
            && (k > 3 ==> s[p + k - 3] == Byte2(n)) && (k > 4 ==> s[p + k - 4] == Byte3(n))
  {
    match GetLen(s, p).next - p {
      case 2 => BytesOfWord(0, 0, 0, s[p + 1]);
      case 3 => BytesOfWord(0, 0, s[p + 1], s[p + 2]);
      case 4 => BytesOfWord(0, s[p + 1], s[p + 2], s[p + 3]);
      case 5 => BytesOfWord(s[p + 1], s[p + 2], s[p + 3], s[p + 4]);
      case _ =>
    }
  }

  /** Minimal length octets are exactly the octets the writer would produce. */
  lemma MinimalLengthIsLenOctets(s: Octets, p: nat)
    requires p <= |s| && GetLen(s, p).Ok?
    ensures MinimalLength(s, p) <==> At(s, p, LenOctets(GetLen(s, p).len))
  {
    var n, k := GetLen(s, p).len, GetLen(s, p).next - p;
    ReadForm(s, p);
    LengthOfForm(n);
    hide GetLen, LenOctets, Byte0, Byte1, Byte2, Byte3;
    if k == |LenOctets(n)| {
      FormOfLength(s, p, n, k);
    }
  }
}
