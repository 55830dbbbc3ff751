/** The in-place encoder that writes a signature backwards from the end of its own buffer. */
module EcdsaEncodePsa {
  import opened Bytes
  import opened Asn1
  import opened EcdsaDer

  const HW_ACCEL_FAILED: int := -0x70

  /** Moves the n-octet number at start to just before p and turns it into a DER INTEGER there.
      Nothing below start and nothing from p on is written. */
  method WriteMpiBuf(buf: array<byte>, p: nat, start: nat, n: nat) returns (ret: int, q: nat)
    requires start <= p <= buf.Length && start + n <= buf.Length && n < COMPONENT_LIMIT
    modifies buf
    ensures start <= q <= p && SameOutside(old(buf[..]), buf[..], start, p)
    ensures var v := old(buf[start..start + n]);
            if p - start < n then ret == BUF_TOO_SMALL
            else if !NonZero(v) then ret == HW_ACCEL_FAILED
            else if p - start < |IntDer(v)| then ret == BUF_TOO_SMALL
            else ret == |IntDer(v)| && q == p - ret && buf[q..p] == IntDer(v)
  {
    hide LenOctets, Prepend, SameOutside, Tlv, Strip, IntDer;
    ghost var b, v := buf[..], buf[start..start + n];
    SameOutsideRefl(b, start, p);
    if p - start < n { return BUF_TOO_SMALL, p; }
    MemMove(buf, p - n, start, n);
    MovedSpan(b, p - n, start, n);
    var len;
    q, len := SkipZeros(buf[..], p - n, n);
    assert buf[..][p - n..p] == v && buf[..][q..q + len] == buf[q..q + len];
    if len == 0 { return HW_ACCEL_FAILED, q; }
    ghost var b1 := buf[..];
    IntDerIsTlv(v);
    ret, q := WriteInteger(buf, q, start, len, Strip(v));
    SameOutsideTrans(b, b1, buf[..], start, p, p);
  }

  /** Completes the magnitude m at [p, p + n) to a DER INTEGER: a zero octet when its top bit is set,
      then length and tag. */
  method WriteInteger(buf: array<byte>, p: nat, start: nat, n: nat, ghost m: Octets) returns (ret: int, q: nat)
    requires start <= p && p + n <= buf.Length && n <= COMPONENT_LIMIT
    requires m != [] && buf[p..p + n] == m
    modifies buf
    ensures start <= q <= p && SameOutside(old(buf[..]), buf[..], start, p + n)
    ensures var t := Tlv(TAG_INTEGER, if m[0] >= 0x80 then [0] + m else m);
            if p + n - start < |t| then ret == BUF_TOO_SMALL
            else ret == |t| && q == p + n - ret && buf[q..p + n] == t
  {
    hide LenOctets, Prepend, SameOutside, Tlv;
    ghost var b := buf[..];
    SameOutsideRefl(b, start, p + n);
    TlvLength(TAG_INTEGER, if m[0] >= 0x80 then [0] + m else m);
    q := p;
    var len := n;
    if buf[q] >= 0x80 {
      if q - start < 1 { return BUF_TOO_SMALL, q; }
      PrependSpan(b, p, [0], start, p + n);
      ret, q := WriteRaw(buf, q, start, [0]);
      len := len + 1;
    }
    ghost var b1, q1 := buf[..], q;
    ret, q := CloseTlv(buf, q, start, len, TAG_INTEGER);
    SameOutsideTrans(b, b1, buf[..], start, q1, p + n);
  }

  lemma MovedSpan(b: Octets, dst: nat, src: nat, n: nat)
    requires src <= dst && dst + n <= |b|
    ensures var m := b[..dst] + b[src..src + n] + b[dst + n..];
            m[dst..dst + n] == b[src..src + n] && SameOutside(b, m, src, dst + n)
  {
  }

  /** The encoder's condition for success, in terms a caller can check beforehand. */
  predicate Encodes(r: Octets, s: Octets, bufLen: nat)
    requires |r| == |s| < COMPONENT_LIMIT
  {
    && NonZero(r) && NonZero(s)
    && bufLen >= 2 * |r|
    && bufLen >= |r| + |IntDer(s)|
    && bufLen >= |SigDer(r, s)|
  }

  /** The SEQUENCE, written backwards from bufLen while r || s still stands at the front. */
  method WriteSigBackwards(buf: array<byte>, n: nat, bufLen: nat, ghost r: Octets, ghost s: Octets)
    returns (ret: int, p: nat)
    requires 2 * n <= buf.Length && n <= bufLen <= buf.Length && n < COMPONENT_LIMIT
    requires buf[0..0 + n] == r && buf[n..n + n] == s
    modifies buf
    ensures p <= bufLen && SameOutside(old(buf[..]), buf[..], 0, bufLen)
    ensures ret > 0 <==> Encodes(r, s, bufLen)
    ensures ret > 0 ==> p + ret == bufLen && buf[p..p + ret] == SigDer(r, s)
    ensures ret <= 0 ==> ret == BUF_TOO_SMALL || ret == HW_ACCEL_FAILED
  {
    hide LenOctets, SameOutside, Prepend, Tlv, IntDer, SigDer, NonZero, IntContents, Strip;
    ghost var b0 := buf[..];
    var r1, p1 := WriteMpiBuf(buf, bufLen, n, n);
    ghost var b1 := buf[..];
    SameOutsideWiden(b0, b1, n, 0, bufLen);
    if r1 < 0 { return r1, p1; }
    SameOutsideSlice(b0, b1, n, bufLen, 0, 0 + n);
    var r2, p2 := WriteMpiBuf(buf, p1, 0, n);
    ghost var b2 := buf[..];
    SameOutsideTrans(b0, b1, b2, 0, p1, bufLen);
    if r2 < 0 { return r2, p2; }
    SameOutsideSlice(b1, b2, 0, p1, p1, bufLen);
    assert b2[p2..bufLen] == b2[p2..p1] + b2[p1..bufLen];
    SigDerIsTlv(r, s);
    ret, p := CloseTlv(buf, p2, 0, r1 + r2, TAG_SEQUENCE);
    SameOutsideTrans(b0, b2, buf[..], 0, p2, bufLen);
  }

  /** Transcodes r || s at the front of buf into Ecdsa-Sig-Value, in place. When bufLen is not even one component, the
      size comparison wraps, and s is moved to an address in front of the buffer; nothing is said about that case
      except exactly when it occurs. */
  method SigAsn1FromPsa(buf: array<byte>, sigLen: nat, bufLen: nat) returns (ret: int, newLen: nat, stray: bool)
    requires sigLen <= buf.Length && bufLen <= buf.Length && sigLen / 2 < COMPONENT_LIMIT
    modifies buf
    ensures stray <==> bufLen < sigLen / 2
    ensures !stray ==>
              var n := sigLen / 2;
              var r, s := old(buf[0..0 + n]), old(buf[n..n + n]);
              && (ret == 0 <==> && Value(r) > 0 && Value(s) > 0 && bufLen >= 2 * n
                                && bufLen >= n + |IntDer(s)| && bufLen >= |SigDer(r, s)|)
              && (ret == 0 ==> newLen <= buf.Length && buf[..newLen] == SigDer(r, s)
                               && SignatureAt(buf[..newLen], n, r + s, newLen))
    ensures !stray && ret != 0 ==> (ret == BUF_TOO_SMALL || ret == HW_ACCEL_FAILED) && newLen == sigLen
    ensures !stray ==> buf[bufLen..] == old(buf[bufLen..])
  {
    hide SigDer, SignatureAt, Encodes, Value;
    var n := sigLen / 2;
    ghost var r, s := buf[0..0 + n], buf[n..n + n];
    ret, newLen, stray := 0, sigLen, false;
    var room := (bufLen - n) % SIZE_LIMIT;
    if room >= n && bufLen < n {
      return ret, newLen, true;
    }
    EncodesMeans(r, s, bufLen);
    ret, newLen := TranscodeInPlace(buf, n, sigLen, bufLen, r, s);
  }

  /** The encoder's condition in terms of the components' values, and what the encoding then is. */
  lemma EncodesMeans(r: Octets, s: Octets, bufLen: nat)
    requires |r| == |s| < COMPONENT_LIMIT
    ensures Encodes(r, s, bufLen)
            <==> && Value(r) > 0 && Value(s) > 0 && bufLen >= 2 * |r|
                 && bufLen >= |r| + |IntDer(s)| && bufLen >= |SigDer(r, s)|
    ensures Encodes(r, s, bufLen) ==> SignatureAt(SigDer(r, s), |r|, r + s, |SigDer(r, s)|)
  {
    hide SigDer, SignatureAt, IntDer, Strip, Value;
    StripValue(r);
    StripValue(s);
    if Value(r) > 0 && Value(s) > 0 {
      EncodedIsSignature(r, s);
    }
  }

  /** The steps of the encoder, in a buffer that holds at least one component. */
  method TranscodeInPlace(buf: array<byte>, n: nat, sigLen: nat, bufLen: nat, ghost r: Octets, ghost s: Octets)
    returns (ret: int, newLen: nat)
    requires n == sigLen / 2 < COMPONENT_LIMIT && sigLen <= buf.Length && n <= bufLen <= buf.Length
    requires buf[0..0 + n] == r && buf[n..n + n] == s
    modifies buf
    ensures ret == 0 <==> Encodes(r, s, bufLen)
    ensures ret == 0 ==> newLen == |SigDer(r, s)| <= buf.Length && buf[..newLen] == SigDer(r, s)
    ensures ret != 0 ==> (ret == BUF_TOO_SMALL || ret == HW_ACCEL_FAILED) && newLen == sigLen
    ensures buf[bufLen..] == old(buf[bufLen..])
  {
    hide Encodes, SigDer, NonZero;
    var len, p := WriteSigBackwards(buf, n, bufLen, r, s);
    ghost var b := buf[..];
    if len <= 0 { return len, sigLen; }
    MemMove(buf, 0, p, len);
    MovedFront(b, p, len, bufLen);
    return 0, len;
  }

  lemma IntDerIsTlv(v: Octets)
    requires |v| < COMPONENT_LIMIT
    ensures IntDer(v) == Tlv(TAG_INTEGER, IntContents(v))
  {
  }

  lemma SigDerIsTlv(r: Octets, s: Octets)
    requires |r| < COMPONENT_LIMIT && |s| < COMPONENT_LIMIT
    ensures SigDer(r, s) == Tlv(TAG_SEQUENCE, IntDer(r) + IntDer(s))
  {
  }

  lemma MovedFront(b: Octets, src: nat, n: nat, end: nat)
    requires src + n <= end <= |b|
    ensures var m := b[..0] + b[src..src + n] + b[0 + n..];
            m[..n] == b[src..src + n] && m[end..] == b[end..]
  {
  }
}
