/** Ecdsa-Sig-Value (section 2.2.3 of RFC 3279) against the fixed-width r || s form. */
module EcdsaDer {
  import opened Bytes
  import opened Asn1

  /** Components are bounded so that every length below fits in a C int. */
  const COMPONENT_LIMIT: nat := 0x1000_0000

  /** Contents of a nonnegative INTEGER holding the magnitude v. */
  function IntContents(v: Octets): (c: Octets)
    ensures |c| <= |v| + 1
  {
    var m := Strip(v);
    if m != [] && m[0] >= 0x80 then [0] + m else m
  }

  function IntDer(v: Octets): (d: Octets)
    requires |v| < COMPONENT_LIMIT
    ensures |IntContents(v)| + 2 <= |d| <= |v| + 7
  {
    Tlv(TAG_INTEGER, IntContents(v))
  }

  function SigDer(r: Octets, s: Octets): (d: Octets)
    requires |r| < COMPONENT_LIMIT && |s| < COMPONENT_LIMIT
    ensures |IntDer(r)| + |IntDer(s)| + 2 <= |d|
  {
    Tlv(TAG_SEQUENCE, IntDer(r) + IntDer(s))
  }

  predicate NonZero(v: Octets) {
    Strip(v) != []
  }

  /** Left-pads a magnitude to n octets. */
  function Pad(m: Octets, n: nat): (v: Octets)
    requires |m| <= n
    ensures |v| == n
  {
    Zeros(n - |m|) + m
  }

  datatype Extracted = Got(octets: Octets, next: nat) | Fail(code: int)

  /** What the decoder makes of one INTEGER at p. */
  function ExtractInt(s: Octets, p: nat, n: nat): (x: Extracted)
    requires p <= |s|
    ensures x.Fail? ==> x.code < 0
    ensures x.Got? ==> p < x.next <= |s| && |x.octets| == n
  {
    match GetTag(s, p, TAG_INTEGER)
    case Err(code) => Fail(code)
    case Ok(len, q) =>
      var m := Strip(s[q..q + len]);
      if |m| > n || m == [] then Fail(LENGTH_MISMATCH) else Got(Pad(m, n), q + len)
  }

  /** What the decoder makes of a whole signature: the SEQUENCE length is read but not used. */
  function ExtractSig(s: Octets, p: nat, n: nat): (x: Extracted)
    requires p <= |s|
    ensures x.Fail? ==> x.code < 0
    ensures x.Got? ==> p < x.next <= |s| && |x.octets| == 2 * n
  {
    match GetTag(s, p, TAG_SEQUENCE)
    case Err(code) => Fail(code)
    case Ok(_, q) =>
      match ExtractInt(s, q, n)
      case Fail(code) => Fail(code)
      case Got(r, q') =>
        match ExtractInt(s, q', n)
        case Fail(code) => Fail(code)
        case Got(t, q'') => Got(r + t, q'')
  }

  // ---- Round trip -------------------------------------------------------

  lemma StripPad(v: Octets)
    ensures Pad(Strip(v), |v|) == v
  {
    StripSplit(v);
  }

  lemma StripOfPad(m: Octets, n: nat)
    requires |m| <= n && Strip(m) == m
    ensures Strip(Pad(m, n)) == m
  {
    StripSplit(m);
    StripUnique(Pad(m, n), n - |m|);
  }

  lemma StripStrip(v: Octets)
    ensures Strip(Strip(v)) == Strip(v)
    ensures Strip(IntContents(v)) == Strip(v)
  {
    var m := Strip(v);
    StripSplit(v);
    StripUnique(m, 0);
    if m != [] && m[0] >= 0x80 {
      StripUnique([0] + m, 1);
    }
  }

  /** Contents with the magnitude of v are read back as v, however many zeros lead them. */
  lemma ExtractIntOfTlv(s: Octets, p: nat, c: Octets, v: Octets)
    requires |c| < SIZE_LIMIT && NonZero(v) && Strip(c) == Strip(v)
    requires At(s, p, Tlv(TAG_INTEGER, c))
    ensures ExtractInt(s, p, |v|) == Got(v, p + |Tlv(TAG_INTEGER, c)|)
  {
    hide GetTag, Strip, Tlv, LenOctets;
    GetTagOfTlv(s, p, TAG_INTEGER, c);
    TlvLength(TAG_INTEGER, c);
    StripPad(v);
  }

  lemma ExtractIntOfIntDer(s: Octets, p: nat, v: Octets)
    requires |v| < COMPONENT_LIMIT && NonZero(v)
    requires At(s, p, IntDer(v))
    ensures ExtractInt(s, p, |v|) == Got(v, p + |IntDer(v)|)
  {
    hide Tlv, ExtractInt;
    StripStrip(v);
    ExtractIntOfTlv(s, p, IntContents(v), v);
  }

  /** Any signature body written as SEQUENCE { INTEGER a, INTEGER b } is read back
      component by component, whatever follows it. */
  lemma ExtractSigOfBody(s: Octets, p: nat, a: Octets, b: Octets, n: nat, r: Octets, t: Octets)
    requires |a| + |b| < SIZE_LIMIT
    requires At(s, p, Tlv(TAG_SEQUENCE, a + b))
    requires forall i: nat :: At(s, i, a) ==> ExtractInt(s, i, n) == Got(r, i + |a|)
    requires forall i: nat :: At(s, i, b) ==> ExtractInt(s, i, n) == Got(t, i + |b|)
    ensures ExtractSig(s, p, n) == Got(r + t, p + |Tlv(TAG_SEQUENCE, a + b)|)
  {
    hide Tlv, GetTag, ExtractInt, LenOctets;
    GetTagOfTlv(s, p, TAG_SEQUENCE, a + b);
    TlvLength(TAG_SEQUENCE, a + b);
    var q := p + 1 + |LenOctets(|a + b|)|;
    AtParts(s, q, a, b);
  }

  /** Decoding the canonical encoding returns r || s and stops exactly at its end. */
  lemma {:induction false} DecodeOfEncode(r: Octets, t: Octets, n: nat, tail: Octets)
    requires |r| == |t| == n < COMPONENT_LIMIT && NonZero(r) && NonZero(t)
    ensures ExtractSig(SigDer(r, t) + tail, 0, n) == Got(r + t, |SigDer(r, t)|)
  {
    hide Tlv, GetTag, ExtractInt, ExtractSig, Strip, IntDer;
    var s := SigDer(r, t) + tail;
    forall i: nat | At(s, i, IntDer(r)) ensures ExtractInt(s, i, n) == Got(r, i + |IntDer(r)|) {
      ExtractIntOfIntDer(s, i, r);
    }
    forall i: nat | At(s, i, IntDer(t)) ensures ExtractInt(s, i, n) == Got(t, i + |IntDer(t)|) {
      ExtractIntOfIntDer(s, i, t);
    }
    assert s[0..0 + |SigDer(r, t)|] == SigDer(r, t);
    ExtractSigOfBody(s, 0, IntDer(r), IntDer(t), n, r, t);
  }

  // ---- What the decoder accepts -----------------------------------------

  /** At p an INTEGER with the value of v, which is not zero, ends at q. Its length may take more octets than needed,
      and zeros may lead its contents. */
  ghost predicate IntegerAt(s: Octets, p: nat, v: Octets, q: nat) {
    exists k: nat, len: nat :: HeaderAt(s, p, 0x02, k, len) && q == p + 1 + k + len
                               && Value(s[p + 1 + k..q]) == Value(v) > 0
  }

  /** s starts with a SEQUENCE header, whose length only has to fit, and then the two halves of raw as INTEGERs, of
      which the second ends at end. */
  ghost predicate SignatureAt(s: Octets, n: nat, raw: Octets, end: nat) {
    |raw| == 2 * n && exists k: nat, len: nat, mid: nat ::
      HeaderAt(s, 0, 0x30, k, len) && IntegerAt(s, 1 + k, raw[..n], mid) && IntegerAt(s, mid, raw[n..], end)
  }

  lemma IntegerEnds(s: Octets, p: nat, v: Octets, q: nat)
    requires IntegerAt(s, p, v, q)
    ensures p < q <= |s|
  {
  }

  lemma ExtractedIsInteger(s: Octets, p: nat, n: nat)
    requires p <= |s| && ExtractInt(s, p, n).Got?
    ensures IntegerAt(s, p, ExtractInt(s, p, n).octets, ExtractInt(s, p, n).next)
  {
    GetTagForm(s, p, TAG_INTEGER);
    hide GetTag, HeaderAt, Strip, Value;
    var g := GetTag(s, p, TAG_INTEGER);
    var c := s[g.next..g.next + g.len];
    StripValue(c);
    ValueOfZeroPrefix(n - |Strip(c)|, Strip(c));
    assert g.next == p + 1 + (g.next - p - 1);
    assert HeaderAt(s, p, 0x02, g.next - p - 1, g.len);
  }

  lemma IntegerIsExtracted(s: Octets, p: nat, v: Octets, q: nat)
    requires p <= |s| && IntegerAt(s, p, v, q)
    ensures ExtractInt(s, p, |v|) == Got(v, q)
  {
    var k: nat, len: nat :| HeaderAt(s, p, 0x02, k, len) && q == p + 1 + k + len
                            && Value(s[p + 1 + k..q]) == Value(v) > 0;
    hide ExtractInt, Strip, Value, LengthAt, IntegerAt;
    ExtractAtHeader(s, p, k, len, v);
  }

  lemma ExtractAtHeader(s: Octets, p: nat, k: nat, len: nat, v: Octets)
    requires p <= |s| && HeaderAt(s, p, 0x02, k, len)
    requires p + 1 + k + len <= |s| && Value(s[p + 1 + k..p + 1 + k + len]) == Value(v) > 0
    ensures ExtractInt(s, p, |v|) == Got(v, p + 1 + k + len)
  {
    hide GetTag, HeaderAt, Strip, Value;
    GetTagIff(s, p, TAG_INTEGER, k, len);
    MagnitudeFits(s[p + 1 + k..p + 1 + k + len], v);
  }

  lemma {:induction false} ExtractIntIff(s: Octets, p: nat, n: nat, v: Octets, q: nat)
    requires p <= |s| && |v| == n
    ensures ExtractInt(s, p, n) == Got(v, q) <==> IntegerAt(s, p, v, q)
  {
    hide ExtractInt, IntegerAt;
    if ExtractInt(s, p, n) == Got(v, q) {
      ExtractedIsInteger(s, p, n);
    }
    if IntegerAt(s, p, v, q) {
      IntegerIsExtracted(s, p, v, q);
    }
  }

  /** Only one octet string of n octets has the value of c. */
  lemma MagnitudeFits(c: Octets, v: Octets)
    requires Value(c) == Value(v) > 0
    ensures 0 < |Strip(c)| <= |v| && Pad(Strip(c), |v|) == v
  {
    var m := Strip(c);
    StripValue(c);
    StripSplit(c);
    ValueAbove(m);
    ValueBelow(v);
    if |m| > |v| {
      PowGrows(|v|, |m| - 1);
    } else {
      ValueOfZeroPrefix(|v| - |m|, m);
      ValueInjective(Pad(m, |v|), v);
    }
  }

  lemma ExtractedIsSignature(s: Octets, n: nat)
    requires ExtractSig(s, 0, n).Got?
    ensures SignatureAt(s, n, ExtractSig(s, 0, n).octets, ExtractSig(s, 0, n).next)
  {
    GetTagForm(s, 0, TAG_SEQUENCE);
    hide GetTag, ExtractInt, IntegerAt, HeaderAt;
    var raw, g := ExtractSig(s, 0, n).octets, GetTag(s, 0, TAG_SEQUENCE);
    var a := ExtractInt(s, g.next, n);
    var b := ExtractInt(s, a.next, n);
    assert raw[..n] == a.octets && raw[n..] == b.octets;
    ExtractedIsInteger(s, g.next, n);
    ExtractedIsInteger(s, a.next, n);
    assert 1 + (g.next - 1) == g.next;
    assert HeaderAt(s, 0, 0x30, g.next - 1, g.len);
  }

  lemma SignatureIsExtracted(s: Octets, n: nat, raw: Octets, end: nat)
    requires SignatureAt(s, n, raw, end)
    ensures ExtractSig(s, 0, n) == Got(raw, end)
  {
    hide GetTag, ExtractInt, IntegerAt;
    var k: nat, len: nat, mid: nat :|
      HeaderAt(s, 0, 0x30, k, len) && IntegerAt(s, 1 + k, raw[..n], mid) && IntegerAt(s, mid, raw[n..], end);
    GetTagIff(s, 0, TAG_SEQUENCE, k, len);
    IntegerEnds(s, 1 + k, raw[..n], mid);
    IntegerIsExtracted(s, 1 + k, raw[..n], mid);
    IntegerIsExtracted(s, mid, raw[n..], end);
    assert raw[..n] + raw[n..] == raw;
  }

  /** The decoder returns raw and stops at end exactly where two such INTEGERs stand. */
  lemma ExtractSigIff(s: Octets, n: nat, raw: Octets, end: nat)
    ensures ExtractSig(s, 0, n) == Got(raw, end) <==> SignatureAt(s, n, raw, end)
  {
    hide ExtractSig, SignatureAt;
    if ExtractSig(s, 0, n) == Got(raw, end) {
      ExtractedIsSignature(s, n);
    }
    if SignatureAt(s, n, raw, end) {
      SignatureIsExtracted(s, n, raw, end);
    }
  }

  /** The canonical encoding is such a signature, component by component in this order. */
  lemma EncodedIsSignature(r: Octets, t: Octets)
    requires |r| == |t| < COMPONENT_LIMIT && Value(r) > 0 && Value(t) > 0
    ensures SignatureAt(SigDer(r, t), |r|, r + t, |SigDer(r, t)|)
  {
    hide ExtractSig, SigDer, SignatureAt;
    StripValue(r);
    StripValue(t);
    DecodeOfEncode(r, t, |r|, []);
    assert SigDer(r, t) + [] == SigDer(r, t);
    ExtractSigIff(SigDer(r, t), |r|, r + t, |SigDer(r, t)|);
  }

  /** In octets: leading zeros go, and a set top bit gets a zero octet in front. */
  lemma EncodedExample()
    ensures SigDer([0x00, 0x01], [0x80, 0x00]) == [0x30, 0x08, 0x02, 0x01, 0x01, 0x02, 0x03, 0x00, 0x80, 0x00]
  {
    assert Strip([0x00, 0x01]) == [0x01] by {
      StripUnique([0x00, 0x01], 1);
    }
    assert Strip([0x80, 0x00]) == [0x80, 0x00] by {
      StripUnique([0x80, 0x00], 0);
    }
    assert IntDer([0x00, 0x01]) == [0x02, 0x01, 0x01];
    assert IntDer([0x80, 0x00]) == [0x02, 0x03, 0x00, 0x80, 0x00];
  }

  /** The error codes of the extraction. */
  lemma ExtractErrors(s: Octets, n: nat)
    requires ExtractSig(s, 0, n).Fail?
    ensures ExtractSig(s, 0, n).code in {-0x60, -0x62, -0x64, -0x66}
  {
    hide GetLen;
    forall p, tag | 0 <= p <= |s| && GetTag(s, p, tag).Err? ensures GetTag(s, p, tag).code in {-0x60, -0x62, -0x64} {
      GetTagErrors(s, p, tag);
    }
  }

  // ---- Canonicalisation -------------------------------------------------

  /** Contents octets of a nonnegative INTEGER in the fewest octets, X.690 section 8.3.2:
      at least one octet, sign bit clear, and the first nine bits not all zero. */
  predicate MinimalContents(c: Octets) {
    c != [] && c[0] < 0x80 && (|c| >= 2 && c[0] == 0 ==> c[1] >= 0x80)
  }

  /** The written INTEGER is minimal and has the big-endian value of the component. */
  lemma IntContentsMinimal(v: Octets)
    requires NonZero(v)
    ensures MinimalContents(IntContents(v))
    ensures Value(IntContents(v)) == Value(v)
  {
    hide Value;
    var m := Strip(v);
    StripSplit(v);
    ValueOfZeroPrefix(|v| - |m|, m);
    ValueOfZeroPrefix(1, m);
    assert Zeros(1) + m == [0] + m;
  }

  /** Only one contents string is minimal for a given magnitude. */
  lemma MinimalContentsUnique(c: Octets)
    requires Strip(c) != []
    ensures MinimalContents(c) <==> c == IntContents(c)
  {
    if c[0] != 0 {
      StripUnique(c, 0);
    } else if |c| >= 2 && c[1] != 0 {
      StripUnique(c, 1);
      assert c == [0] + c[1..];
    } else {
      var m := Strip(c);
      StripSplit(c);
      assert |c| >= 2 && c[0] == 0 && c[1] == 0;
      assert |m| + 2 <= |c|;
    }
  }

  /** One INTEGER in DER at p: minimal length octets and minimal contents. */
  predicate StrictInt(s: Octets, p: nat)
    requires p <= |s|
  {
    var g := GetTag(s, p, TAG_INTEGER);
    g.Ok? && MinimalLength(s, p + 1) && MinimalContents(s[g.next..g.next + g.len])
  }

  /** A whole DER Ecdsa-Sig-Value and nothing after it. */
  predicate StrictSig(s: Octets) {
    var g := GetTag(s, 0, TAG_SEQUENCE);
    && g.Ok? && MinimalLength(s, 1) && g.next + g.len == |s|
    && StrictInt(s, g.next)
    && var a := GetTag(s, g.next, TAG_INTEGER);
       var q := a.next + a.len;
       && StrictInt(s, q)
       && var b := GetTag(s, q, TAG_INTEGER);
          b.next + b.len == |s|
  }

  lemma TlvAt(s: Octets, p: nat, tag: byte, c: Octets)
    requires |c| < SIZE_LIMIT && p < |s| && GetTag(s, p, tag).Ok?
    ensures At(s, p, Tlv(tag, c)) <==>
            var g := GetTag(s, p, tag);
            g.len == |c| && MinimalLength(s, p + 1) && s[g.next..g.next + g.len] == c
  {
    var g := GetTag(s, p, tag);
    var o := LenOctets(|c|);
    MinimalLengthIsLenOctets(s, p + 1);
    AtParts(s, p, [tag] + o, c);
    AtParts(s, p, [tag], o);
    assert s[p..p + 1] == [tag];
    if At(s, p, Tlv(tag, c)) {
      GetTagOfTlv(s, p, tag, c);
    } else if g.len == |c| && MinimalLength(s, p + 1) {
      assert p + 1 + |o| + |c| <= |s|;
      GetLenOfLenOctets(s, p + 1, |c|);
    }
  }

  lemma StrictIntIff(s: Octets, p: nat, n: nat)
    requires p <= |s| && n < COMPONENT_LIMIT && ExtractInt(s, p, n).Got?
    ensures var x := ExtractInt(s, p, n);
            StrictInt(s, p) <==> x.next == p + |IntDer(x.octets)| && At(s, p, IntDer(x.octets))
  {
    var g := GetTag(s, p, TAG_INTEGER);
    var c := s[g.next..g.next + g.len];
    var m := Strip(c);
    var v := Pad(m, n);
    StripStrip(c);
    StripOfPad(m, n);
    assert IntContents(v) == IntContents(c);
    MinimalContentsUnique(c);
    TlvAt(s, p, TAG_INTEGER, IntContents(v));
    if At(s, p, IntDer(v)) {
      GetTagOfTlv(s, p, TAG_INTEGER, IntContents(v));
    }
  }

  /** The two INTEGERs fill the rest of s from q and are strict, exactly when that rest is
      the concatenation of their canonical encodings. */
  lemma StrictBodyIff(s: Octets, q: nat, n: nat)
    requires q <= |s| && n < COMPONENT_LIMIT
    requires ExtractInt(s, q, n).Got? && ExtractInt(s, ExtractInt(s, q, n).next, n).Got?
    ensures var x := ExtractInt(s, q, n);
            var y := ExtractInt(s, x.next, n);
            StrictInt(s, q) && StrictInt(s, x.next) && y.next == |s|
            <==> s[q..] == IntDer(x.octets) + IntDer(y.octets)
  {
    hide Tlv, MinimalLength, MinimalContents, GetTag, Strip;
    var x := ExtractInt(s, q, n);
    var y := ExtractInt(s, x.next, n);
    StrictIntIff(s, q, n);
    StrictIntIff(s, x.next, n);
    if At(s, q, IntDer(x.octets)) {
      StrictIntNext(s, q, n);
    }
    if At(s, x.next, IntDer(y.octets)) {
      StrictIntNext(s, x.next, n);
    }
    RestIs(s, q, IntDer(x.octets), IntDer(y.octets));
  }

  lemma RestIs(s: Octets, q: nat, a: Octets, b: Octets)
    requires q <= |s|
    ensures s[q..] == a + b <==> At(s, q, a) && At(s, q + |a|, b) && q + |a| + |b| == |s|
  {
    AtParts(s, q, a, b);
    assert s[q..|s|] == s[q..];
  }

  lemma StrictIntNext(s: Octets, p: nat, n: nat)
    requires p <= |s| && n < COMPONENT_LIMIT && ExtractInt(s, p, n).Got?
    requires At(s, p, IntDer(ExtractInt(s, p, n).octets))
    ensures ExtractInt(s, p, n).next == p + |IntDer(ExtractInt(s, p, n).octets)|
  {
    GetTagOfTlv(s, p, TAG_INTEGER, IntContents(ExtractInt(s, p, n).octets));
  }

  /** Decoding then encoding returns the original octets exactly when they were strict DER. */
  lemma {:induction false} EncodeOfDecode(s: Octets, n: nat)
    requires n < COMPONENT_LIMIT && ExtractSig(s, 0, n).Got?
    ensures var raw := ExtractSig(s, 0, n).octets;
            SigDer(raw[..n], raw[n..]) == s <==> StrictSig(s)
  {
    hide Tlv, MinimalLength, MinimalContents, GetTag, Strip, IntDer;
    var g := GetTag(s, 0, TAG_SEQUENCE);
    var x := ExtractInt(s, g.next, n);
    var y := ExtractInt(s, x.next, n);
    var body := IntDer(x.octets) + IntDer(y.octets);
    var raw := x.octets + y.octets;
    assert raw[..n] == x.octets && raw[n..] == y.octets;
    StrictBodyIff(s, g.next, n);
    WholeTlv(s, TAG_SEQUENCE, body);
  }

  /** s is one TLV and nothing else. */
  lemma WholeTlv(s: Octets, tag: byte, c: Octets)
    requires |c| < SIZE_LIMIT && GetTag(s, 0, tag).Ok?
    ensures var g := GetTag(s, 0, tag);
            s == Tlv(tag, c) <==> MinimalLength(s, 1) && g.next + g.len == |s| && s[g.next..] == c
  {
    var g := GetTag(s, 0, tag);
    TlvAt(s, 0, tag, c);
    assert s[0..|s|] == s;
    if s == Tlv(tag, c) {
      GetTagOfTlv(s, 0, tag, c);
    } else if MinimalLength(s, 1) && g.next + g.len == |s| && s[g.next..] == c {
      assert s[g.next..g.next + g.len] == s[g.next..];
      GetTagOfTlv(s, 0, tag, c);
    }
  }
}
