/** The second encoder: through a temporary buffer, without stripping zeros. */
module EcdsaEncodePkcs11 {
  import opened Bytes
  import opened Asn1
  import opened EcdsaDer
  import EcdsaDecode

  function RawContents(v: Octets): (c: Octets)
    requires v != []
    ensures |v| <= |c| <= |v| + 1
  {
    if v[0] > 0x7F then [0] + v else v
  }

  function RawIntDer(v: Octets): (d: Octets)
    requires v != [] && |v| < COMPONENT_LIMIT
    ensures |v| + 2 <= |d| <= |v| + 7
  {
    Tlv(TAG_INTEGER, RawContents(v))
  }

  function RawSigDer(r: Octets, s: Octets): (d: Octets)
    requires r != [] && s != [] && |r| < COMPONENT_LIMIT && |s| < COMPONENT_LIMIT
    ensures |RawIntDer(r)| + |RawIntDer(s)| + 2 <= |d|
  {
    Tlv(TAG_SEQUENCE, RawIntDer(r) + RawIntDer(s))
  }

  /** The INTEGER for the n octets at the front of str. The octet there decides about the sign octet even when
      n is zero. */
  function RawIntAt(str: Octets, n: nat): (d: Octets)
    requires str != [] && n <= |str| && n < COMPONENT_LIMIT
    ensures n + 2 <= |d| <= n + 7
  {
    Tlv(TAG_INTEGER, if str[0] > 0x7F then [0] + str[..n] else str[..n])
  }

  /** The encoding of the components of n octets at the front of sig. */
  function RawSigAt(sig: Octets, n: nat): Octets
    requires sig != [] && 2 * n <= |sig| && n < COMPONENT_LIMIT
  {
    Tlv(TAG_SEQUENCE, RawIntAt(sig, n) + RawIntAt(sig[n..], n))
  }

  lemma RawSigAtIsDer(sig: Octets, n: nat)
    requires 0 < n && 2 * n <= |sig| && n < COMPONENT_LIMIT
    ensures RawSigAt(sig, n) == RawSigDer(sig[..n], sig[n..2 * n])
  {
    assert sig[n..][..n] == sig[n..2 * n];
    assert RawIntAt(sig, n) == RawIntDer(sig[..n]);
    assert RawIntAt(sig[n..], n) == RawIntDer(sig[n..2 * n]);
  }

  method WriteBigInt(buf: array<byte>, p: nat, str: Octets, n: nat) returns (ret: int, q: nat)
    requires p <= buf.Length && str != [] && n <= |str| && n < COMPONENT_LIMIT
    modifies buf
    ensures q <= p && SameOutside(old(buf[..]), buf[..], 0, p)
    ensures ret > 0 <==> |RawIntAt(str, n)| <= p
    ensures ret > 0 ==> ret == |RawIntAt(str, n)| && q == p - ret && buf[q..p] == RawIntAt(str, n)
  {
    hide LenOctets, Prepend, SameOutside, Tlv;
    ghost var b := buf[..];
    SameOutsideRefl(b, 0, p);
    var required := if str[0] > 0x7F then n + 1 else n;
    var c := if str[0] > 0x7F then [0] + str[..n] else str[..n];
    TlvLength(TAG_INTEGER, c);
    if p < required { return 0, p; }
    PrependSpan(b, p, c, 0, p);
    ret, q := WriteRaw(buf, p, 0, c);
    ghost var b1, q1 := buf[..], q;
    assert buf[q..p] == c + [] == c;
    ret, q := CloseTlv(buf, q, 0, required, TAG_INTEGER);
    SameOutsideTrans(b, b1, buf[..], 0, q1, p);
  }

  /** The whole encoding at the end of the temporary buffer; nonpositive when it does not fit. */
  method WriteSig(temp: array<byte>, sig: Octets, n: nat) returns (ret: int, p: nat)
    requires sig != [] && 2 * n <= |sig| && n < |sig| && n < COMPONENT_LIMIT
    modifies temp
    ensures ret > 0 <==> |RawSigAt(sig, n)| <= temp.Length
    ensures ret > 0 ==> p + ret == temp.Length && temp[p..p + ret] == RawSigAt(sig, n)
  {
    hide LenOctets, Prepend, SameOutside, Tlv, RawIntAt;
    TlvLength(TAG_SEQUENCE, RawIntAt(sig, n) + RawIntAt(sig[n..], n));
    var r1, p1 := WriteBigInt(temp, temp.Length, sig[n..], n);
    if r1 <= 0 { return r1, p1; }
    ghost var b1 := temp[..];
    var r2, p2 := WriteBigInt(temp, p1, sig, n);
    if r2 <= 0 { return r2, p2; }
    SameOutsideSlice(b1, temp[..], 0, p1, p1, temp.Length);
    assert temp[p2..temp.Length] == temp[p2..p1] + temp[p1..temp.Length];
    ret, p := CloseTlv(temp, p2, 0, r1 + r2, TAG_SEQUENCE);
  }

  /** Replaces r || s in sig by its encoding; -1 and sig untouched when it does not fit. */
  method SigToAsn1InPlace(sig: array<byte>, bufSize: nat, sigLen: nat, tempLen: nat) returns (ret: int, newLen: nat)
    requires sigLen < bufSize <= sig.Length && sigLen / 2 < COMPONENT_LIMIT
    modifies sig
    ensures var der := RawSigAt(old(sig[..]), sigLen / 2);
            && (ret == 0 <==> |der| <= tempLen && |der| <= bufSize)
            && (ret == 0 ==> newLen == |der| && sig[..] == der + old(sig[newLen..]))
    ensures ret != 0 ==> ret == -1 && newLen == sigLen && sig[..] == old(sig[..])
  {
    hide RawSigAt;
    var n := sigLen / 2;
    var temp := new byte[tempLen];
    var len, p := WriteSig(temp, sig[..], n);
    if len <= 0 || len > bufSize { return -1, sigLen; }
    var der := temp[p..p + len];
    forall i | 0 <= i < len {
      sig[i] := der[i];
    }
    return 0, len;
  }

  /** The unstripped encoding still decodes to r || s and stops at its end. */
  lemma {:induction false} DecodeOfRawEncode(r: Octets, t: Octets, n: nat, tail: Octets)
    requires |r| == |t| == n < COMPONENT_LIMIT && NonZero(r) && NonZero(t)
    ensures ExtractSig(RawSigDer(r, t) + tail, 0, n) == Got(r + t, |RawSigDer(r, t)|)
  {
    hide Tlv, GetTag, ExtractInt, ExtractSig, Strip, RawIntDer;
    var s := RawSigDer(r, t) + tail;
    forall i: nat | At(s, i, RawIntDer(r)) ensures ExtractInt(s, i, n) == Got(r, i + |RawIntDer(r)|) {
      ExtractIntOfRaw(s, i, r);
    }
    forall i: nat | At(s, i, RawIntDer(t)) ensures ExtractInt(s, i, n) == Got(t, i + |RawIntDer(t)|) {
      ExtractIntOfRaw(s, i, t);
    }
    assert s[0..0 + |RawSigDer(r, t)|] == RawSigDer(r, t);
    ExtractSigOfBody(s, 0, RawIntDer(r), RawIntDer(t), n, r, t);
  }

  /** The verifier's verdict on such a signature depends on the key, the raw signature and trailing octets alone. */
  lemma VerdictOnRawEncoded(key: int, r: Octets, t: Octets, n: nat, tail: Octets, check: Octets -> bool)
    requires |r| == |t| == n && NonZero(r) && NonZero(t) && 2 * n <= EcdsaDecode.SCRATCH_LEN
    ensures EcdsaDecode.Verdict(key, RawSigDer(r, t) + tail, n, check) == 0 <==> key == 0 && check(r + t) && tail == []
  {
    hide RawSigDer, ExtractSig;
    DecodeOfRawEncode(r, t, n, tail);
  }

  lemma ExtractIntOfRaw(s: Octets, p: nat, v: Octets)
    requires v != [] && |v| < COMPONENT_LIMIT && NonZero(v) && At(s, p, RawIntDer(v))
    ensures ExtractInt(s, p, |v|) == Got(v, p + |RawIntDer(v)|)
  {
    hide Tlv, ExtractInt;
    ExtractIntOfTlv(s, p, RawContents(v), v);
  }

  /** In octets: leading zeros stay. */
  lemma RawEncodedExample()
    ensures RawSigDer([0x00, 0x01], [0x80, 0x00])
            == [0x30, 0x09, 0x02, 0x02, 0x00, 0x01, 0x02, 0x03, 0x00, 0x80, 0x00]
  {
    assert RawIntDer([0x00, 0x01]) == [0x02, 0x02, 0x00, 0x01];
    assert RawIntDer([0x80, 0x00]) == [0x02, 0x03, 0x00, 0x80, 0x00];
  }

  /** The leading nine bits of v are zero, so that v is not a minimal INTEGER. */
  predicate NineZeroBits(v: Octets) {
    |v| >= 2 && v[0] == 0 && v[1] < 0x80
  }

  lemma RawIntDerCompared(v: Octets)
    requires |v| < COMPONENT_LIMIT && NonZero(v)
    ensures |IntDer(v)| <= |RawIntDer(v)|
    ensures IntDer(v) == RawIntDer(v) <==> !NineZeroBits(v)
    ensures NineZeroBits(v) ==> |IntDer(v)| < |RawIntDer(v)|
  {
    StripSplit(v);
    if v[0] != 0 {
      StripUnique(v, 0);
    } else if v[1] != 0 {
      StripUnique(v, 1);
      assert v == [0] + v[1..];
    }
    assert |IntContents(v)| <= |RawContents(v)|;
  }

  /** The two encoders agree byte for byte exactly when neither component starts with nine zero bits. */
  lemma EncodersAgree(r: Octets, s: Octets)
    requires |r| < COMPONENT_LIMIT && |s| < COMPONENT_LIMIT && NonZero(r) && NonZero(s)
    ensures SigDer(r, s) == RawSigDer(r, s) <==> !NineZeroBits(r) && !NineZeroBits(s)
  {
    hide IntDer, RawIntDer, Strip, Tlv;
    RawIntDerCompared(r);
    RawIntDerCompared(s);
    TlvLength(TAG_SEQUENCE, IntDer(r) + IntDer(s));
    TlvLength(TAG_SEQUENCE, RawIntDer(r) + RawIntDer(s));
  }
}
