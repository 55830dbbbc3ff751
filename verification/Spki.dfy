/** Two builders of a SubjectPublicKeyInfo for an elliptic-curve key (section 2 of RFC 5480). */
module Spki {
  import opened Bytes
  import opened Asn1

  /** The curves that have an object identifier in the repository's table. */
  datatype Curve =
    | Secp192r1 | Secp224r1 | Secp256r1 | Secp384r1 | Secp521r1
    | Secp192k1 | Secp224k1 | Secp256k1
    | Bp256r1 | Bp384r1 | Bp512r1

  /** id-ecPublicKey. */
  const EC_PUBLIC_KEY_OID: Octets := [0x2A, 0x86, 0x48, 0xCE, 0x3D, 0x02, 0x01]

  /** The arcs shared by the curve identifiers of ANSI X9.62, Certicom and the Brainpool group. */
  const ANSI_X9_62: Octets := [0x2A, 0x86, 0x48, 0xCE, 0x3D]
  const CERTICOM: Octets := [0x2B, 0x81, 0x04]
  const BRAINPOOL_V1: Octets := [0x2B, 0x24, 0x03, 0x03, 0x02, 0x08, 0x01, 0x01]

  function CurveOid(c: Curve): (o: Octets)
    ensures |o| == 8 || |o| == 5 || |o| == 9
  {
    match c
    case Secp192r1 => ANSI_X9_62 + [0x03, 0x01, 0x01]
    case Secp224r1 => CERTICOM + [0x00, 0x21]
    case Secp256r1 => ANSI_X9_62 + [0x03, 0x01, 0x07]
    case Secp384r1 => CERTICOM + [0x00, 0x22]
    case Secp521r1 => CERTICOM + [0x00, 0x23]
    case Secp192k1 => CERTICOM + [0x00, 0x1F]
    case Secp224k1 => CERTICOM + [0x00, 0x20]
    case Secp256k1 => CERTICOM + [0x00, 0x0A]
    case Bp256r1 => BRAINPOOL_V1 + [0x07]
    case Bp384r1 => BRAINPOOL_V1 + [0x0B]
    case Bp512r1 => BRAINPOOL_V1 + [0x0D]
  }

  /** Octets of a field element. */
  function FieldLen(c: Curve): (n: nat)
    ensures n <= 66
  {
    match c
    case Secp192r1 => 24
    case Secp224r1 => 28
    case Secp256r1 => 32
    case Secp384r1 => 48
    case Secp521r1 => 66
    case Secp192k1 => 24
    case Secp224k1 => 28
    case Secp256k1 => 32
    case Bp256r1 => 32
    case Bp384r1 => 48
    case Bp512r1 => 64
  }

  /** Octets of an uncompressed point. */
  function PointLen(c: Curve): nat {
    2 * FieldLen(c) + 1
  }

  const ECP_PUB_DER_MAX_BYTES: nat := 30 + 2 * 66

  const PSA_SUCCESS: int := 0
  const PSA_ERROR_GENERIC_ERROR: int := -132
  const PSA_ERROR_OTHER: int := -151

  // ---- Specification ----------------------------------------------------------

  function AlgorithmIdentifier(c: Curve): Octets {
    Tlv(TAG_SEQUENCE, Tlv(TAG_OID, EC_PUBLIC_KEY_OID) + Tlv(TAG_OID, CurveOid(c)))
  }

  function PublicKeyInfo(c: Curve, point: Octets): Octets
    requires |point| == PointLen(c)
  {
    Tlv(TAG_SEQUENCE, AlgorithmIdentifier(c) + Tlv(TAG_BIT_STRING, [0] + point))
  }

  // ---- Error translation --------------------------------------------------------

  /** Low-level codes (negated) that the translation recognises. */
  const LOW_LEVEL_CODES: set<int> :=
    {0x02, 0x04, 0x06, 0x08, 0x0A, 0x0C, 0x0E, 0x10, 0x20, 0x22, 0x24, 0x34, 0x36, 0x38, 0x3A, 0x3C, 0x3D, 0x40,
     0x60, 0x62, 0x64, 0x66, 0x68, 0x6A, 0x6C, 0x6E, 0x70, 0x72}

  /** The translation looks at the low seven bits of the negated value even when it is a positive count. */
  function ToPsaError(ret: int): int {
    if ret == 0 then PSA_SUCCESS
    else if -ret % 0x80 in LOW_LEVEL_CODES then PSA_ERROR_OTHER
    else if ret < 0 then PSA_ERROR_GENERIC_ERROR
    else PSA_SUCCESS
  }

  // ---- The backwards builder ------------------------------------------------------

  /** Prepends o to the suffix that starts at p, if there is room in front of it. */
  method Push(buf: array<byte>, p: nat, o: Octets, ghost suffix: Octets) returns (count: int, q: nat)
    requires p <= buf.Length && buf[p..] == suffix
    modifies buf
    ensures if |o| <= p then count == |o| && q == p - |o| && buf[q..] == o + suffix
            else count == BUF_TOO_SMALL && q == p && buf[..] == old(buf[..])
  {
    ghost var b := buf[..];
    count, q := WriteRaw(buf, p, 0, o);
    if count >= 0 {
      PrependSpan(b, p, o, 0, buf.Length);
      assert buf[..][q..buf.Length] == buf[q..] && b[p..buf.Length] == suffix;
    }
  }

  /** Length and tag in front of the contents c that the buffer continues with from p. */
  method PushHeader(buf: array<byte>, p: nat, len: nat, tag: byte, ghost c: Octets, ghost suffix: Octets)
    returns (count: int, q: nat)
    requires len == |c| < SIZE_LIMIT && p <= buf.Length && buf[p..] == c + suffix
    modifies buf
    ensures var t := Tlv(tag, c);
            if |t| - len <= p then 2 <= count == |t| - len && q == p - count && buf[q..] == t + suffix
            else count == BUF_TOO_SMALL
  {
    hide Tlv;
    TlvParts(tag, c);
    var c1, p1 := Push(buf, p, LenOctets(len), c + suffix);
    if c1 < 0 { return c1, p1; }
    var c2, p2 := Push(buf, p1, [tag], LenOctets(len) + (c + suffix));
    if c2 < 0 { return c2, p2; }
    Reassociate([tag], LenOctets(len), c, suffix);
    return c1 + c2, p2;
  }

  lemma Reassociate(a: Octets, b: Octets, c: Octets, d: Octets)
    ensures a + (b + (c + d)) == (a + (b + c)) + d
  {
  }

  /** An OBJECT IDENTIFIER in front of the suffix, or an error when it does not fit. */
  method WriteOid(buf: array<byte>, p: nat, oid: Octets, ghost suffix: Octets) returns (count: int, q: nat)
    requires |oid| < SIZE_LIMIT && p <= buf.Length && buf[p..] == suffix
    modifies buf
    ensures var t := Tlv(TAG_OID, oid);
            if |t| <= p then count == |t| && q == p - count && buf[q..] == t + suffix
            else count == BUF_TOO_SMALL
  {
    hide Tlv, LenOctets;
    TlvParts(TAG_OID, oid);
    var c1, p1 := Push(buf, p, oid, suffix);
    if c1 < 0 { return c1, p1; }
    var c2, p2 := PushHeader(buf, p1, |oid|, TAG_OID, oid, suffix);
    if c2 < 0 { return c2, p2; }
    return c1 + c2, p2;
  }

  const NULL_TLV: Octets := [0x05, 0x00]

  /** NULL stands for missing parameters. */
  function Parameters(par: Octets): (q: Octets)
    ensures |par| <= |q| <= |par| + 2
  {
    if par == [] then NULL_TLV else par
  }

  function IdentifierContents(oid: Octets, par: Octets): (c: Octets)
    requires |oid| < 0x1_0000 && |par| < 0x1_0000
    ensures |par| <= |c| < SIZE_LIMIT
  {
    Tlv(TAG_OID, oid) + Parameters(par)
  }

  /** Writes NULL unless parameters have been written already. */
  method WriteMissingParameters(buf: array<byte>, p: nat, parLen: nat, ghost par: Octets, ghost suffix: Octets)
    returns (len: int, q: nat)
    requires parLen == |par| && p <= buf.Length && buf[p..] == par + suffix
    modifies buf
    ensures if |Parameters(par)| - parLen <= p
            then len == |Parameters(par)| && q == p + parLen - len && buf[q..] == Parameters(par) + suffix
            else len == BUF_TOO_SMALL
  {
    if parLen != 0 { return parLen, p; }
    assert par + suffix == suffix;
    len, q := Push(buf, p, NULL_TLV, suffix);
  }

  /** The algorithm's identifier in front of its already written parameters, or of NULL, and the SEQUENCE around
      both; the count includes the parameters. An error when they do not fit. */
  method WriteAlgorithmIdentifier(buf: array<byte>, p: nat, oid: Octets, parLen: nat, ghost par: Octets,
                                  ghost suffix: Octets) returns (count: int, q: nat)
    requires |oid| < 0x1_0000 && parLen == |par| < 0x1_0000 && p <= buf.Length && buf[p..] == par + suffix
    modifies buf
    ensures var t := Tlv(TAG_SEQUENCE, IdentifierContents(oid, par));
            if |t| - parLen <= p then count == |t| && q == p + parLen - count && buf[q..] == t + suffix
            else count == BUF_TOO_SMALL
  {
    hide Tlv, LenOctets;
    ghost var id, par', c := Tlv(TAG_OID, oid), Parameters(par), IdentifierContents(oid, par);
    TlvParts(TAG_SEQUENCE, c);
    assert id + (par' + suffix) == c + suffix;
    hide IdentifierContents, Parameters;
    var len, p1 := WriteMissingParameters(buf, p, parLen, par, suffix);
    if len < 0 { return len, p1; }
    var c1, p2 := WriteOid(buf, p1, oid, par' + suffix);
    if c1 < 0 { return c1, p2; }
    var c2, p3 := PushHeader(buf, p2, len + c1, TAG_SEQUENCE, c, suffix);
    if c2 < 0 { return c2, p3; }
    return len + c1 + c2, p3;
  }

  lemma IdentifierSizes(c: Curve, point: Octets)
    requires |point| == PointLen(c)
    ensures |Tlv(TAG_OID, CurveOid(c))| == |CurveOid(c)| + 2
    ensures |AlgorithmIdentifier(c)| == |CurveOid(c)| + 13
    ensures |Tlv(TAG_BIT_STRING, [0] + point)| == |point| + if |point| + 1 < 0x80 then 3 else 4
    ensures |PublicKeyInfo(c, point)| <= ECP_PUB_DER_MAX_BYTES
    ensures AlgorithmIdentifier(c)
            == Tlv(TAG_SEQUENCE, IdentifierContents(EC_PUBLIC_KEY_OID, Tlv(TAG_OID, CurveOid(c))))
    ensures PublicKeyInfo(c, point)
            == Tlv(TAG_SEQUENCE, AlgorithmIdentifier(c) + Tlv(TAG_BIT_STRING, [0] + point))
  {
    assert |AlgorithmIdentifier(c)| == |CurveOid(c)| + 13;
  }

  /** The BIT STRING around the exported point, at the end of the buffer. */
  method WriteKey(buf: array<byte>, point: Octets) returns (written: int, p: nat)
    requires |point| < 0xFF && |point| + 4 <= buf.Length
    modifies buf
    ensures written == |Tlv(TAG_BIT_STRING, [0] + point)| == buf.Length - p <= |point| + 4 && p <= buf.Length
    ensures buf[p..] == Tlv(TAG_BIT_STRING, [0] + point)
  {
    hide Tlv, LenOctets;
    ghost var none: Octets := [];
    BitStringSize(point);
    var count;
    count, p := Push(buf, buf.Length, point, none);
    count, p := Push(buf, p, [0], point + none);
    written := |point| + 1;
    assert [0] + (point + none) == ([0] + point) + none;
    count, p := PushHeader(buf, p, written, TAG_BIT_STRING, [0] + point, none);
    assert Tlv(TAG_BIT_STRING, [0] + point) + none == Tlv(TAG_BIT_STRING, [0] + point);
    written := written + count;
  }

  lemma BitStringSize(point: Octets)
    requires |point| < 0xFF
    ensures |point| + 3 <= |Tlv(TAG_BIT_STRING, [0] + point)| <= |point| + 4
  {
  }

  /** Builds the structure backwards from the end of the buffer. The octet counter is kept alongside the
      write pointer, and the result is cut out by the counter. Of all curves in the table, exactly those with an
      identifier of eight octets survive the translation of the counts. */
  method ReadPublicKey(c: Curve, point: Octets) returns (status: int, der: Octets)
    requires |point| == PointLen(c)
    ensures status == PSA_SUCCESS <==> c == Secp256r1 || c == Secp192r1
    ensures status == PSA_SUCCESS ==> der == PublicKeyInfo(c, point)
    ensures status != PSA_SUCCESS ==> der == []
  {
    hide Tlv, LenOctets, AlgorithmIdentifier, PublicKeyInfo;
    IdentifierSizes(c, point);
    CountsTranslated(c);
    hide CurveOid, FieldLen, ToPsaError, IdentifierContents;
    der := [];
    var buf := new byte[ECP_PUB_DER_MAX_BYTES](_ => 0);
    ghost var bits, id := Tlv(TAG_BIT_STRING, [0] + point), AlgorithmIdentifier(c);
    var written, p := WriteKey(buf, point);
    TlvParts(TAG_SEQUENCE, id + bits);

    var objLen;
    objLen, p := WriteOid(buf, p, CurveOid(c), bits);
    status := ToPsaError(objLen);
    if status != PSA_SUCCESS { return; }

    var count;
    count, p := WriteAlgorithmIdentifier(buf, p, EC_PUBLIC_KEY_OID, objLen, Tlv(TAG_OID, CurveOid(c)), bits);
    written := written + count;
    status := ToPsaError(count);
    if status != PSA_SUCCESS { return; }

    ghost var none: Octets := [];
    assert id + bits == (id + bits) + none;
    count, p := PushHeader(buf, p, written, TAG_SEQUENCE, id + bits, none);
    written := written + count;
    status := ToPsaError(1);
    assert PublicKeyInfo(c, point) + none == PublicKeyInfo(c, point);
    assert written == buf.Length - p;
    der := buf[buf.Length - written..];
  }

  /** Which of the positive counts are mistaken for errors: 18 and 22 alias codes, 21 does not. */
  lemma CountsTranslated(c: Curve)
    ensures ToPsaError(|CurveOid(c)| + 2) == PSA_SUCCESS == ToPsaError(1)
    ensures ToPsaError(|CurveOid(c)| + 13) == PSA_SUCCESS <==> c == Secp256r1 || c == Secp192r1
  {
  }

  /** The smallest case: the identifier of a P-384 key takes 18 octets, and 18 is taken for an error. */
  lemma P384CountIsError()
    ensures |AlgorithmIdentifier(Secp384r1)| == 18 && ToPsaError(18) == PSA_ERROR_OTHER
  {
    hide Tlv, LenOctets;
    ShortTlv(TAG_OID, CurveOid(Secp384r1));
    ShortTlv(TAG_OID, EC_PUBLIC_KEY_OID);
    ShortTlv(TAG_SEQUENCE, Tlv(TAG_OID, EC_PUBLIC_KEY_OID) + Tlv(TAG_OID, CurveOid(Secp384r1)));
  }

  lemma TlvParts(tag: byte, c: Octets)
    requires |c| < SIZE_LIMIT
    ensures [tag] + (LenOctets(|c|) + c) == Tlv(tag, c)
    ensures |Tlv(tag, c)| == 1 + |LenOctets(|c|)| + |c|
  {
  }

  // ---- The constant-header builder ------------------------------------------------

  const EC_P256_HEADER: Octets :=
    [0x30, 0x59, 0x30, 0x13, 0x06, 0x07, 0x2a, 0x86,
     0x48, 0xce, 0x3d, 0x02, 0x01, 0x06, 0x08, 0x2a,
     0x86, 0x48, 0xce, 0x3d, 0x03, 0x01, 0x07, 0x03,
     0x42, 0x00]

  const UNUSED_KEY_TAG_LEN: nat := 2

  /** The point wrapped as an OCTET STRING, as it is stored. */
  function StoredPoint(point: Octets): Octets
    requires |point| <= 0xFF
  {
    [TAG_OCTET_STRING, |point|] + point
  }

  /** Reads the stored attribute behind the room for the header, then lays the header over its first two octets. */
  method ExportPubKeyDer(stored: Octets) returns (der: array<byte>)
    requires |stored| >= UNUSED_KEY_TAG_LEN
    ensures der[..] == EC_P256_HEADER + stored[UNUSED_KEY_TAG_LEN..]
  {
    var offset := |EC_P256_HEADER| - UNUSED_KEY_TAG_LEN;
    der := new byte[|stored| + offset](_ => 0);
    forall i | 0 <= i < |stored| {
      der[offset + i] := stored[i];
    }
    forall i | 0 <= i < |EC_P256_HEADER| {
      der[i] := EC_P256_HEADER[i];
    }
  }

  /** For every P-256 point, storing, exporting and prefixing gives the structure the other builder computes,
      and the point is its suffix. */
  lemma BuildersAgree(point: Octets)
    requires |point| == PointLen(Secp256r1)
    ensures EC_P256_HEADER + StoredPoint(point)[UNUSED_KEY_TAG_LEN..] == PublicKeyInfo(Secp256r1, point)
    ensures |PublicKeyInfo(Secp256r1, point)| == 91
    ensures PublicKeyInfo(Secp256r1, point)[91 - PointLen(Secp256r1)..] == point
  {
    hide Tlv, LenOctets, AlgorithmIdentifier;
    P256Identifier();
    IdentifierSizes(Secp256r1, point);
    ShortTlv(TAG_BIT_STRING, [0] + point);
    ShortTlv(TAG_SEQUENCE, AlgorithmIdentifier(Secp256r1) + Tlv(TAG_BIT_STRING, [0] + point));
    var bits := Tlv(TAG_BIT_STRING, [0] + point);
    assert bits == [0x03, 0x42, 0x00] + point;
    assert PublicKeyInfo(Secp256r1, point)
           == ([0x30, 0x59] + AlgorithmIdentifier(Secp256r1) + [0x03, 0x42, 0x00]) + point;
    assert StoredPoint(point)[UNUSED_KEY_TAG_LEN..] == point;
  }

  lemma P256Identifier()
    ensures EC_P256_HEADER == [0x30, 0x59] + AlgorithmIdentifier(Secp256r1) + [0x03, 0x42, 0x00]
  {
    hide Tlv, LenOctets;
    var curve, alg := Tlv(TAG_OID, CurveOid(Secp256r1)), Tlv(TAG_OID, EC_PUBLIC_KEY_OID);
    ShortTlv(TAG_OID, CurveOid(Secp256r1));
    ShortTlv(TAG_OID, EC_PUBLIC_KEY_OID);
    ShortTlv(TAG_SEQUENCE, alg + curve);
  }

  lemma ShortTlv(tag: byte, c: Octets)
    requires |c| < 0x80
    ensures Tlv(tag, c) == [tag, |c|] + c
  {
  }
}
