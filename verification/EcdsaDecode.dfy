/** Decoding an Ecdsa-Sig-Value into a fixed-width buffer, and the verification wrapper. */
module EcdsaDecode {
  import opened Bytes
  import opened Asn1
  import opened EcdsaDer

  const PK_BAD_INPUT_DATA: int := -0x3E80
  const PK_SIG_LEN_MISMATCH: int := -0x3900
  const ECP_VERIFY_FAILED: int := -0x4E00

  /** Size of the wrapper's scratch buffer, for the largest supported field of 66 octets. */
  const SCRATCH_LEN: nat := 30 + 2 * 66

  /** One INTEGER from the cursor p into out[to..to + n]. */
  method ExtractSigInt(from: Octets, p: nat, out: array<byte>, to: nat, n: nat) returns (ret: int, next: nat)
    requires p <= |from| && to + n <= out.Length
    modifies out
    ensures SameOutside(old(out[..]), out[..], to, to + n)
    ensures match ExtractInt(from, p, n)
            case Got(v, q) => ret == 0 && next == q && out[to..to + n] == v
            case Fail(code) => ret == code
  {
    hide GetTag, SameOutside;
    SameOutsideRefl(out[..], to, to + n);
    next := p;
    var g := GetTag(from, p, TAG_INTEGER);
    if g.Err? { return g.code, p; }
    next := g.next;
    var unpadded;
    next, unpadded := SkipZeros(from, g.next, g.len);
    if unpadded > n || unpadded == 0 { return LENGTH_MISMATCH, next; }
    WritePadded(out, to, n, from[next..next + unpadded]);
    return 0, next + unpadded;
  }

  method WritePadded(out: array<byte>, to: nat, n: nat, m: Octets)
    requires to + n <= out.Length && |m| <= n
    modifies out
    ensures SameOutside(old(out[..]), out[..], to, to + n) && out[to..to + n] == Pad(m, n)
  {
    var padding := n - |m|;
    forall i | 0 <= i < padding {
      out[to + i] := 0;
    }
    forall i | 0 <= i < |m| {
      out[to + padding + i] := m[i];
    }
  }

  /** r || s into out[..2 * n]. */
  method ExtractSignature(from: Octets, p: nat, out: array<byte>, n: nat) returns (ret: int, next: nat)
    requires p <= |from| && 2 * n <= out.Length
    modifies out
    ensures match ExtractSig(from, p, n)
            case Got(v, q) => ret == 0 && next == q && out[..2 * n] == v
            case Fail(code) => ret == code
  {
    hide GetLen, ExtractInt, SameOutside;
    var g := GetTag(from, p, TAG_SEQUENCE);
    if g.Err? { return g.code, p; }
    ret, next := ExtractSigInt(from, g.next, out, 0, n);
    if ret != 0 { return; }
    ghost var b := out[..];
    ret, next := ExtractSigInt(from, next, out, n, n);
    SameOutsideSlice(b, out[..], n, n + n, 0, 0 + n);
    assert out[..2 * n] == out[0..0 + n] + out[n..n + n];
  }

  /** The wrapper's verdict on a signature, given the code with which exporting and importing the public key ended
      (0 when the key is ready) and the verifier of raw signatures. */
  function Verdict(key: int, sig: Octets, n: nat, check: Octets -> bool): int {
    if key != 0 then key
    else if 2 * n > SCRATCH_LEN then PK_BAD_INPUT_DATA
    else
      match ExtractSig(sig, 0, n)
      case Fail(code) => code
      case Got(raw, next) =>
        if !check(raw) then ECP_VERIFY_FAILED
        else if next != |sig| then PK_SIG_LEN_MISMATCH
        else 0
  }

  /** The verifier, for every signature: 0 exactly when the key is ready and the whole of sig is a SEQUENCE header and
      two INTEGERs whose n-octet forms verify. A signature that cannot be extracted is answered with the extractor's
      error, one that does not verify and one that is followed by more octets with their own codes. */
  method EcdsaVerify(key: int, sig: Octets, n: nat, check: Octets -> bool) returns (ret: int)
    ensures ret == Verdict(key, sig, n, check)
    ensures ret == 0 <==> key == 0 && 2 * n <= SCRATCH_LEN
                          && exists raw :: SignatureAt(sig, n, raw, |sig|) && check(raw)
    ensures key != 0 ==> ret == key
    ensures key == 0 && 2 * n > SCRATCH_LEN ==> ret == -0x3E80
    ensures key == 0 && 2 * n <= SCRATCH_LEN ==>
              forall raw, end: nat :: SignatureAt(sig, n, raw, end)
                                 ==> ret == if !check(raw) then -0x4E00 else if end < |sig| then -0x3900 else 0
    ensures key == 0 && 2 * n <= SCRATCH_LEN && (forall raw, end: nat :: !SignatureAt(sig, n, raw, end))
            ==> ret in {-0x60, -0x62, -0x64, -0x66}
  {
    hide SignatureAt, Verdict;
    VerdictMeans(key, sig, n, check);
    ret := ExtractAndCheck(key, sig, n, check);
  }

  /** The steps of the wrapper. */
  method ExtractAndCheck(key: int, sig: Octets, n: nat, check: Octets -> bool) returns (ret: int)
    ensures ret == Verdict(key, sig, n, check)
  {
    if key != 0 { return key; }
    if 2 * n > SCRATCH_LEN { return PK_BAD_INPUT_DATA; }
    var buf := new byte[SCRATCH_LEN];
    var p;
    ret, p := ExtractSignature(sig, 0, buf, n);
    if ret != 0 { return; }
    if !check(buf[..2 * n]) { return ECP_VERIFY_FAILED; }
    if p != |sig| { return PK_SIG_LEN_MISMATCH; }
    return 0;
  }

  lemma VerdictMeans(key: int, sig: Octets, n: nat, check: Octets -> bool)
    ensures var ret := Verdict(key, sig, n, check);
            && (ret == 0 <==> key == 0 && 2 * n <= SCRATCH_LEN
                              && exists raw :: SignatureAt(sig, n, raw, |sig|) && check(raw))
            && (key != 0 ==> ret == key)
            && (key == 0 && 2 * n > SCRATCH_LEN ==> ret == -0x3E80)
            && (key == 0 && 2 * n <= SCRATCH_LEN ==>
                  forall raw, end: nat :: SignatureAt(sig, n, raw, end)
                    ==> ret == if !check(raw) then -0x4E00 else if end < |sig| then -0x3900 else 0)
            && (key == 0 && 2 * n <= SCRATCH_LEN && (forall raw, end: nat :: !SignatureAt(sig, n, raw, end))
                ==> ret in {-0x60, -0x62, -0x64, -0x66})
  {
    hide ExtractSig, SignatureAt;
    var x := ExtractSig(sig, 0, n);
    forall raw, end: nat ensures x == Got(raw, end) <==> SignatureAt(sig, n, raw, end) {
      ExtractSigIff(sig, n, raw, end);
    }
    match x
    case Fail(_) => ExtractErrors(sig, n);
    case Got(raw, next) => assert SignatureAt(sig, n, raw, next);
  }

  /** The shortest truncated signature is refused. */
  lemma TruncatedIsRefused(check: Octets -> bool)
    ensures Verdict(0, [0x30], 32, check) == -0x60
  {
  }

  /** A canonical signature is accepted exactly when the key is ready, its raw form verifies and nothing follows it. */
  lemma {:induction false} VerdictOnEncoded(key: int, r: Octets, t: Octets, n: nat, tail: Octets, check: Octets -> bool)
    requires |r| == |t| == n && NonZero(r) && NonZero(t) && 2 * n <= SCRATCH_LEN
    ensures Verdict(key, SigDer(r, t) + tail, n, check) == 0 <==> key == 0 && check(r + t) && tail == []
  {
    DecodeOfEncode(r, t, n, tail);
  }
}
