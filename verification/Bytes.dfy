/** Octets, fixed-width memory moves and the big-endian reading of an octet string. */
module Bytes {

  type byte = b: int | 0 <= b < 0x100

  type Octets = seq<byte>

  /** The object sizes of the 32-bit target. */
  const SIZE_LIMIT: nat := 0x1_0000_0000

  datatype Option<+T> = None | Some(value: T)

  /** The octets of a text in ASCII. */
  function Ascii(s: string): (o: Octets)
    requires forall i :: 0 <= i < |s| ==> s[i] as int < 0x80
    ensures |o| == |s|
  {
    seq(|s|, i requires 0 <= i < |s| => s[i] as int)
  }

  function Min(a: nat, b: nat): nat {
    if a < b then a else b
  }

  function Zeros(n: nat): (z: Octets)
    ensures |z| == n
  {
    seq(n, _ => 0)
  }

  /** Drops every leading zero octet. */
  function Strip(v: Octets): (m: Octets)
    ensures |m| <= |v|
  {
    if v != [] && v[0] == 0 then Strip(v[1..]) else v
  }

  lemma {:induction false} StripSplit(v: Octets)
    ensures var m := Strip(v);
            v == Zeros(|v| - |m|) + m && (m != [] ==> m[0] != 0)
  {
    if v != [] && v[0] == 0 {
      StripSplit(v[1..]);
    }
  }

  /** Big-endian value of an octet string. */
  function Value(v: Octets): nat {
    if v == [] then 0 else Value(v[..|v| - 1]) * 0x100 + v[|v| - 1]
  }

  /** Stripping is the only way to drop leading zeros and stop at a nonzero octet. */
  lemma {:induction false} StripUnique(v: Octets, k: nat)
    requires k <= |v|
    requires forall i :: 0 <= i < k ==> v[i] == 0
    requires k < |v| ==> v[k] != 0
    ensures Strip(v) == v[k..]
  {
    if k > 0 {
      StripUnique(v[1..], k - 1);
    }
  }

  /** Advances over the leading zero octets of the number at [p, p + n). */
  method SkipZeros(s: Octets, p: nat, n: nat) returns (next: nat, len: nat)
    requires p + n <= |s|
    ensures p <= next && next + len == p + n && s[next..next + len] == Strip(s[p..p + n])
  {
    next, len := p, n;
    while len > 0 && s[next] == 0
      invariant p <= next && next + len == p + n
      invariant Strip(s[next..next + len]) == Strip(s[p..p + n])
    {
      assert s[next + 1..next + len] == s[next..next + len][1..];
      next := next + 1;
      len := len - 1;
    }
  }

  lemma {:induction false} ValueOfZeroPrefix(k: nat, v: Octets)
    ensures Value(Zeros(k) + v) == Value(v)
  {
    var w := Zeros(k) + v;
    if v != [] {
      assert w[..|w| - 1] == Zeros(k) + v[..|v| - 1];
      ValueOfZeroPrefix(k, v[..|v| - 1]);
    } else if k > 0 {
      assert w[..|w| - 1] == Zeros(k - 1) + [];
      ValueOfZeroPrefix(k - 1, []);
    }
  }

  function Pow256(n: nat): nat {
    if n == 0 then 1 else 0x100 * Pow256(n - 1)
  }

  lemma {:induction false} PowGrows(m: nat, n: nat)
    requires m <= n
    ensures 0 < Pow256(m) <= Pow256(n)
  {
    if m < n {
      PowGrows(m, n - 1);
    } else if n > 0 {
      PowGrows(m - 1, n - 1);
    }
  }

  lemma {:induction false} ValueBelow(v: Octets)
    ensures Value(v) < Pow256(|v|)
  {
    if v != [] {
      ValueBelow(v[..|v| - 1]);
    }
  }

  lemma {:induction false} ValueAbove(m: Octets)
    requires m != [] && m[0] != 0
    ensures Value(m) >= Pow256(|m| - 1)
  {
    if |m| > 1 {
      ValueAbove(m[..|m| - 1]);
    } else {
      assert m[..0] == [];
    }
  }

  /** Octet strings of equal length are equal when their values are. */
  lemma {:induction false} ValueInjective(a: Octets, b: Octets)
    requires |a| == |b| && Value(a) == Value(b)
    ensures a == b
  {
    if a != [] {
      var n := |a| - 1;
      ValueInjective(a[..n], b[..n]);
      assert a == a[..n] + [a[n]] && b == b[..n] + [b[n]];
    }
  }

  /** Stripping keeps the value, and only zero strips to nothing. */
  lemma StripValue(v: Octets)
    ensures Value(Strip(v)) == Value(v)
    ensures Strip(v) == [] <==> Value(v) == 0
  {
    var m := Strip(v);
    StripSplit(v);
    ValueOfZeroPrefix(|v| - |m|, m);
    if m != [] {
      ValueAbove(m);
      PowGrows(0, |m| - 1);
    }
  }

  /** C's memmove inside one buffer: the regions may overlap. */
  method MemMove(buf: array<byte>, dst: nat, src: nat, n: nat)
    requires dst + n <= buf.Length && src + n <= buf.Length
    modifies buf
    ensures buf[..] == old(buf[..dst] + buf[src..src + n] + buf[dst + n..])
  {
    forall i | 0 <= i < n {
      buf[dst + i] := buf[src + i];
    }
  }
}
