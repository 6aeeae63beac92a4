/** Octets in memory, and the unsigned values they encode in either order. */
module Octets {

  type octet = x: nat | x < 256

  /** Least significant octet first. */
  function ValueLE(s: seq<octet>): nat {
    if s == [] then 0 else s[0] + 256 * ValueLE(s[1..])
  }

  /** Most significant octet first. */
  function ValueBE(s: seq<octet>): nat {
    if s == [] then 0 else 256 * ValueBE(s[..|s| - 1]) + s[|s| - 1]
  }

  /** The `n` low octets of a value, least significant first. */
  function OctetsLE(v: nat, n: nat): (s: seq<octet>)
    ensures |s| == n
  {
    if n == 0 then [] else [v % 256] + OctetsLE(v / 256, n - 1)
  }

  function Pow256(n: nat): (p: nat)
    ensures p > 0
  {
    if n == 0 then 1 else 256 * Pow256(n - 1)
  }

  function Reverse(s: seq<octet>): (r: seq<octet>)
    ensures |r| == |s|
  {
    seq(|s|, i requires 0 <= i < |s| => s[|s| - 1 - i])
  }

  lemma {:induction false} ValueThenOctets(s: seq<octet>)
    ensures OctetsLE(ValueLE(s), |s|) == s
  {
    if s == [] {
    } else {
      ValueThenOctets(s[1..]);
    }
  }

  lemma {:induction false} OctetsThenValue(v: nat, n: nat)
    requires v < Pow256(n)
    ensures ValueLE(OctetsLE(v, n)) == v
  {
    if n == 0 {
    } else {
      OctetsThenValue(v / 256, n - 1);
    }
  }

  lemma {:induction false} ValueBound(s: seq<octet>)
    ensures ValueLE(s) < Pow256(|s|)
  {
    if s == [] {
    } else {
      ValueBound(s[1..]);
    }
  }

  /** Words of the same width are equal exactly if all their octets are. */
  lemma ValueInjective(s: seq<octet>, t: seq<octet>)
    requires |s| == |t|
    ensures ValueLE(s) == ValueLE(t) <==> s == t
  {
    ValueThenOctets(s);
    ValueThenOctets(t);
  }

  /** Reversing the octets turns one order into the other. */
  lemma {:induction false} ReverseValue(s: seq<octet>)
    ensures ValueBE(Reverse(s)) == ValueLE(s) && ValueLE(Reverse(s)) == ValueBE(s)
  {
    if s == [] {
    } else {
      var n := |s|;
      assert Reverse(s)[..n - 1] == Reverse(s[1..]);
      assert Reverse(s)[1..] == Reverse(s[..n - 1]);
      ReverseValue(s[1..]);
      ReverseValue(s[..n - 1]);
    }
  }

  lemma ReverseTwice(s: seq<octet>)
    ensures Reverse(Reverse(s)) == s
  {
  }

  /** The memory with `s` written at `a`. */
  function Patched(m: seq<octet>, a: nat, s: seq<octet>): (r: seq<octet>)
    requires a + |s| <= |m|
    ensures |r| == |m|
  {
    m[..a] + s + m[a + |s|..]
  }
}
