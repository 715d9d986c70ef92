/**
 Little-endian numbers in byte memory.
 */
module Bytes {
  type Byte = b: nat | b < 256

  /** The number held by bytes, least significant first. */
  function Number(b: seq<Byte>): nat {
    if b == [] then 0 else b[0] + 256 * Number(b[1..])
  }

  /** The k low bytes of a number. */
  function Encode(v: nat, k: nat): (b: seq<Byte>)
    ensures |b| == k
    decreases k, v
  {
    if k == 0 then [] else [v % 256] + Encode(v / 256, k - 1)
  }

  function Limit(k: nat): nat {
    if k == 0 then 1 else 256 * Limit(k - 1)
  }

  /** k bytes hold every number below 256^k, and wrap above it. */
  lemma {:induction false} NumberOfEncode(v: nat, k: nat)
    requires v < Limit(k)
    ensures Number(Encode(v, k)) == v
    decreases k, v
  {
    if k > 0 {
      var b := Encode(v, k);
      assert b[1..] == Encode(v / 256, k - 1);
      NumberOfEncode(v / 256, k - 1);
    }
  }

  function Zeros(n: nat): (b: seq<Byte>)
    ensures |b| == n && forall i :: 0 <= i < n ==> b[i] == 0
  {
    if n == 0 then [] else [0] + Zeros(n - 1)
  }

  /** The k-byte number at an address. */
  function Read(m: seq<Byte>, a: nat, k: nat): nat
    requires a + k <= |m|
  {
    Number(m[a..a + k])
  }

  /** Memory holds these bytes at an address. */
  predicate At(m: seq<Byte>, a: nat, b: seq<Byte>) {
    a + |b| <= |m| && m[a..a + |b|] == b
  }

  lemma AtParts(m: seq<Byte>, a: nat, x: seq<Byte>, y: seq<Byte>)
    requires At(m, a, x + y)
    ensures At(m, a, x) && At(m, a + |x|, y)
  {
    assert m[a..a + |x|] == (x + y)[..|x|];
    assert m[a + |x|..a + |x| + |y|] == (x + y)[|x|..];
  }

  /** A number written as bytes is read back, and what follows it is still there. */
  lemma ReadEncoded(m: seq<Byte>, a: nat, v: nat, k: nat, y: seq<Byte>)
    requires At(m, a, Encode(v, k) + y) && v < Limit(k)
    ensures a + k <= |m| && Read(m, a, k) == v && At(m, a + k, y)
  {
    AtParts(m, a, Encode(v, k), y);
    NumberOfEncode(v, k);
  }

  /** A zero-terminated string without zeros in it. */
  predicate StringAt(m: seq<Byte>, a: nat, s: seq<Byte>) {
    At(m, a, s) && a + |s| < |m| && m[a + |s|] == 0 && 0 !in s
  }

  /** The string at an address, up to its zero byte. */
  function CString(m: seq<Byte>, a: nat): seq<Byte>
    decreases |m| - a
  {
    if a >= |m| || m[a] == 0 then [] else [m[a]] + CString(m, a + 1)
  }

  lemma {:induction false} CStringIs(m: seq<Byte>, a: nat, s: seq<Byte>)
    requires StringAt(m, a, s)
    ensures CString(m, a) == s
    decreases |s|
  {
    if s != [] {
      assert m[a] == m[a..a + |s|][0];
      assert m[a + 1..a + |s|] == m[a..a + |s|][1..];
      CStringIs(m, a + 1, s[1..]);
    }
  }
}
