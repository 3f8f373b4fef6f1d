/** Bytes, the host's little-endian integers, and the C library calls that the byte-packed
    structures rely on (memcpy, memmove, realloc) over byte arrays. */
module Bytes {

  type byte = b: int | 0 <= b < 256

  /** 256 to the power n. */
  function Pow256(n: nat): (r: int)
    ensures r >= 1
  {
    if n == 0 then 1 else 256 * Pow256(n - 1)
  }

  /** The n-byte little-endian image of v modulo 256^n. */
  function Le(v: int, n: nat): (s: seq<byte>)
    ensures |s| == n
    decreases n
  {
    if n == 0 then [] else [v % 256] + Le(v / 256, n - 1)
  }

  /** The unsigned integer whose little-endian image is s. */
  function FromLe(s: seq<byte>): (v: int)
    ensures 0 <= v
  {
    if s == [] then 0 else s[0] + 256 * FromLe(s[1..])
  }

  lemma {:induction false} FromLeOfLe(v: int, n: nat)
    requires 0 <= v < Pow256(n)
    ensures FromLe(Le(v, n)) == v
    decreases n
  {
    if n > 0 {
      FromLeOfLe(v / 256, n - 1);
      assert Le(v, n)[1..] == Le(v / 256, n - 1);
    }
  }

  /** The low byte comes first. */
  lemma {:induction false} FourBytes(s: seq<byte>)
    requires |s| == 4
    ensures FromLe(s) == s[0] as int + s[1] as int * 256 + s[2] as int * 0x1_0000 + s[3] as int * 0x100_0000
  {
    var a, b, c := s[1..], s[2..], s[3..];
    assert a[1..] == b && b[1..] == c && c[1..] == [];
    assert FromLe([]) == 0;
    assert FromLe(c) == s[3] as int;
    assert FromLe(b) == s[2] as int + 256 * FromLe(c);
    assert FromLe(a) == s[1] as int + 256 * FromLe(b);
  }

  lemma {:induction false} FromLeBound(s: seq<byte>)
    ensures FromLe(s) < Pow256(|s|)
  {
    if s != [] {
      FromLeBound(s[1..]);
    }
  }

  lemma {:induction false} FromLeOfNegative(v: int, n: nat)
    requires -Pow256(n) <= v < 0
    ensures FromLe(Le(v, n)) == v + Pow256(n)
    decreases n
  {
    if n > 0 {
      assert Le(v, n)[1..] == Le(v / 256, n - 1);
      if n == 1 { assert Pow256(1) == 256 * Pow256(0); }
      FromLeOfNegative(v / 256, n - 1);
    }
  }

  /** The two's complement integer whose little-endian image is s. */
  function Signed(s: seq<byte>): int {
    var u := FromLe(s);
    if 2 * u >= Pow256(|s|) then u - Pow256(|s|) else u
  }

  lemma {:induction false} FromLeInjective(s: seq<byte>, t: seq<byte>)
    requires |s| == |t| && FromLe(s) == FromLe(t)
    ensures s == t
  {
    if s != [] {
      FromLeInjective(s[1..], t[1..]);
      assert s == [s[0]] + s[1..] && t == [t[0]] + t[1..];
    }
  }

  /** Images of the same width stand for different integers. */
  lemma SignedInjective(s: seq<byte>, t: seq<byte>)
    requires |s| == |t|
    ensures Signed(s) == Signed(t) <==> s == t
    ensures -Pow256(|s|) <= 2 * Signed(s) < Pow256(|s|)
  {
    FromLeBound(s);
    FromLeBound(t);
    if Signed(s) == Signed(t) {
      FromLeInjective(s, t);
    }
  }

  lemma SignedOfLe(v: int, n: nat)
    requires -Pow256(n) <= 2 * v < Pow256(n)
    ensures Signed(Le(v, n)) == v
  {
    if v < 0 {
      FromLeOfNegative(v, n);
    } else {
      FromLeOfLe(v, n);
    }
  }

  lemma PowersOf256()
    ensures Pow256(2) == 0x1_0000 && Pow256(4) == 0x1_0000_0000 && Pow256(8) == 0x1_0000_0000_0000_0000
  {
    assert Pow256(1) == 256;
    assert Pow256(3) == 256 * Pow256(2);
    assert Pow256(5) == 256 * Pow256(4);
    assert Pow256(6) == 256 * Pow256(5);
    assert Pow256(7) == 256 * Pow256(6);
  }

  /** The bytes t stand in d at offset p. */
  predicate At(d: seq<byte>, p: nat, t: seq<byte>) {
    p + |t| <= |d| && d[p..p + |t|] == t
  }

  lemma AtSame(d: seq<byte>, e: seq<byte>, p: nat, t: seq<byte>)
    requires At(d, p, t) && p + |t| <= |e|
    requires forall k :: p <= k < p + |t| ==> e[k] == d[k]
    ensures At(e, p, t)
  {
    assert e[p..p + |t|] == d[p..p + |t|];
  }

  lemma AtSlice(d: seq<byte>, p: nat, z: seq<byte>)
    requires At(d, p, z)
    ensures p + |z| <= |d| && d[p..p + |z|] == z
  {
  }

  lemma SliceAt(d: seq<byte>, p: nat, k: nat, z: seq<byte>)
    requires At(d, p + k, z)
    ensures p + k + |z| <= |d| && d[p..p + k + |z|] == d[p..p + k] + z
  {
  }

  lemma AtConcat(d: seq<byte>, p: nat, t: seq<byte>, u: seq<byte>)
    ensures At(d, p, t + u) <==> At(d, p, t) && At(d, p + |t|, u)
  {
    if At(d, p, t + u) {
      assert t == (t + u)[..|t|] && u == (t + u)[|t|..];
    }
  }

  /** memcpy of the bytes t to a + at. */
  method Store(a: array<byte>, at: nat, t: seq<byte>)
    requires at + |t| <= a.Length
    modifies a
    ensures At(a[..], at, t)
    ensures forall k :: 0 <= k < a.Length && !(at <= k < at + |t|) ==> a[k] == old(a[k])
  {
    for i := 0 to |t|
      invariant forall k :: 0 <= k < i ==> a[at + k] == t[k]
      invariant forall k :: 0 <= k < a.Length && !(at <= k < at + i) ==> a[k] == old(a[k])
    {
      a[at + i] := t[i];
    }
  }

  /** memmove: the source range is read as it was before the call, even when it overlaps the target. */
  method Memmove(a: array<byte>, dst: nat, src: nat, n: nat)
    requires dst + n <= a.Length && src + n <= a.Length
    modifies a
    ensures At(a[..], dst, old(a[src..src + n]))
    ensures forall k :: 0 <= k < a.Length && !(dst <= k < dst + n) ==> a[k] == old(a[k])
  {
    var tmp := a[src..src + n];
    Store(a, dst, tmp);
  }

  /** realloc: a new array of n bytes that keeps the common prefix; bytes past it are unspecified. */
  method Realloc(a: array<byte>, n: nat) returns (b: array<byte>)
    ensures fresh(b) && b.Length == n
    ensures forall k :: 0 <= k < n && k < a.Length ==> b[k] == a[k]
  {
    b := new byte[n];
    var m := if n < a.Length then n else a.Length;
    for i := 0 to m
      invariant forall k :: 0 <= k < i ==> b[k] == a[k]
    {
      b[i] := a[i];
    }
  }
}
