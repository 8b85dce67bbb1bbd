/** Bytes, fixed-width integers and their layout in memory. */
module Bytes {

  type byte = x: int | 0 <= x < 256

  const TWO_31 := 0x8000_0000
  const TWO_32 := 0x1_0000_0000

  predicate IsInt32(x: int) { -TWO_31 <= x < TWO_31 }

  function Pow256(n: nat): (r: int)
    ensures r >= 1
  {
    if n == 0 then 1 else 256 * Pow256(n - 1)
  }

  /** The n low bytes of u, least significant first. */
  function PutLittle(u: nat, n: nat): (bs: seq<byte>)
    ensures |bs| == n
    decreases n
  {
    if n == 0 then [] else [u % 256] + PutLittle(u / 256, n - 1)
  }

  function GetLittle(bs: seq<byte>): (u: nat)
    decreases |bs|
  {
    if bs == [] then 0 else bs[0] as int + 256 * GetLittle(bs[1..])
  }

  /** Network order: most significant first. */
  function PutBig(u: nat, n: nat): (bs: seq<byte>)
    ensures |bs| == n
    decreases n
  {
    if n == 0 then [] else PutBig(u / 256, n - 1) + [u % 256]
  }

  function GetBig(bs: seq<byte>): (u: nat)
    decreases |bs|
  {
    if bs == [] then 0 else 256 * GetBig(bs[..|bs| - 1]) + bs[|bs| - 1] as int
  }

  lemma {:induction false} LittleRoundTrip(u: nat, n: nat)
    requires u < Pow256(n)
    ensures GetLittle(PutLittle(u, n)) == u
    decreases n
  {
    if n > 0 {
      LittleRoundTrip(u / 256, n - 1);
      assert PutLittle(u, n)[1..] == PutLittle(u / 256, n - 1);
    }
  }

  lemma {:induction false} BigRoundTrip(u: nat, n: nat)
    requires u < Pow256(n)
    ensures GetBig(PutBig(u, n)) == u
    decreases n
  {
    if n > 0 {
      BigRoundTrip(u / 256, n - 1);
      assert PutBig(u, n)[..n - 1] == PutBig(u / 256, n - 1);
    }
  }

  /** In network order the first byte counts most. */
  lemma {:induction false} BigFirst(a: byte, bs: seq<byte>)
    ensures GetBig([a] + bs) == a * Pow256(|bs|) + GetBig(bs)
    decreases |bs|
  {
    var all := [a] + bs;
    if bs == [] {
      assert all[..0] == [];
    } else {
      var n := |bs| - 1;
      assert all[..|all| - 1] == [a] + bs[..n];
      BigFirst(a, bs[..n]);
      assert GetBig(all) == 256 * (a * Pow256(n) + GetBig(bs[..n])) + bs[n];
    }
  }

  /** Two's complement, for a modulus that is a power of two. */
  function ToUnsigned(x: int, modulus: int): int {
    if x < 0 then x + modulus else x
  }

  function ToSigned(u: int, modulus: int): int {
    if 2 * u < modulus then u else u - modulus
  }

  predicate IsSigned(x: int, n: nat) { -Pow256(n) <= 2 * x < Pow256(n) }

  lemma SignRoundTrip(x: int, n: nat)
    requires IsSigned(x, n)
    ensures 0 <= ToUnsigned(x, Pow256(n)) < Pow256(n)
    ensures ToSigned(ToUnsigned(x, Pow256(n)), Pow256(n)) == x
  {
  }

  lemma PowFour()
    ensures Pow256(1) == 256 && Pow256(2) == 65536 && Pow256(4) == TWO_32
  {
    assert Pow256(0) == 1;
    assert Pow256(2) == 256 * Pow256(1);
    assert Pow256(3) == 256 * Pow256(2);
  }

  /** Overwriting part of a byte string, as memcpy does. */
  function Splice(m: seq<byte>, p: nat, bs: seq<byte>): (r: seq<byte>)
    requires p + |bs| <= |m|
    ensures |r| == |m|
    ensures forall i :: 0 <= i < |m| ==> r[i] == if p <= i < p + |bs| then bs[i - p] else m[i]
    ensures r[p..p + |bs|] == bs
  {
    m[..p] + bs + m[p + |bs|..]
  }

  lemma SpliceGrows(m: seq<byte>, p: nat, bs: seq<byte>)
    requires p + |bs| <= |m|
    ensures Splice(m, p, bs)[..p] == m[..p]
    ensures Splice(m, p, bs)[..p + |bs|] == m[..p] + bs
    ensures Splice(m, p, bs)[p + |bs|..] == m[p + |bs|..]
  {
  }

  lemma SliceJoin(s: seq<byte>, a: nat, b: nat, c: nat)
    requires a <= b <= c <= |s|
    ensures s[a..c] == s[a..b] + s[b..c]
  {
  }

  method CopyInto(a: array<byte>, p: nat, bs: seq<byte>)
    requires p + |bs| <= a.Length
    modifies a
    ensures a[..] == Splice(old(a[..]), p, bs)
  {
    for i := 0 to |bs|
      invariant forall k :: 0 <= k < a.Length ==> a[k] == if p <= k < p + i then bs[k - p] else old(a[k])
    {
      a[p + i] := bs[i];
    }
  }

  /** strlen, and the string it measures. */
  function Length(s: seq<byte>): (n: nat)
    ensures n <= |s| && (n < |s| ==> s[n] == 0)
    ensures forall k :: 0 <= k < n ==> s[k] != 0
  {
    if s == [] || s[0] == 0 then 0 else
    var n := Length(s[1..]);
    assert forall k :: 1 <= k <= n ==> s[k] == s[1..][k - 1];
    1 + n
  }

  function CString(s: seq<byte>): seq<byte> { s[..Length(s)] }

  lemma LengthIs(s: seq<byte>, n: nat)
    requires n <= |s| && (n < |s| ==> s[n] == 0) && forall k :: 0 <= k < n ==> s[k] != 0
    ensures Length(s) == n
  {
  }
}
