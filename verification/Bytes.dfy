/** Bytes and the integers 0 to 255. */
module Bytes {

  type Octets = seq<bv8>

  /** The byte whose value is `n`. */
  function ByteOf(n: int): bv8
    requires 0 <= n < 256
    decreases n
  {
    if n == 0 then 0 else ByteOf(n - 1) + 1
  }

  lemma {:induction false} ByteOfValue(n: int)
    requires 0 <= n < 256
    ensures ByteOf(n) as int == n
    decreases n
  {
    if n > 0 {
      ByteOfValue(n - 1);
      Successor(ByteOf(n - 1));
    }
  }

  lemma Successor(b: bv8)
    requires b as int < 255
    ensures (b + 1) as int == b as int + 1
  {}

  lemma ByteIndexInjective(a: bv8, b: bv8)
    requires a as int == b as int
    ensures a == b
  {
    assert (a as int) as bv8 == a && (b as int) as bv8 == b;
  }

  lemma ByteOfIndex(b: bv8)
    ensures ByteOf(b as int) == b
  {
    ByteOfValue(b as int);
    ByteIndexInjective(ByteOf(b as int), b);
  }

  lemma NonzeroIndex(b: bv8)
    requires b != 0
    ensures 1 <= b as int <= 255
  {
    assert (b as int) as bv8 == b;
  }

  /** Exclusive or of words, named so that proofs can hide it. */
  function Xor32(a: bv32, b: bv32): bv32 { a ^ b }

  lemma Xor32Assoc(a: bv32, b: bv32, c: bv32)
    ensures Xor32(Xor32(a, b), c) == Xor32(a, Xor32(b, c))
  {
    assert (a ^ b) ^ c == a ^ (b ^ c);
  }

  lemma Xor32Basics(a: bv32, b: bv32)
    ensures Xor32(a, b) == Xor32(b, a)
    ensures Xor32(a, 0) == a && Xor32(a, a) == 0
  {}

  lemma Xor32Laws(a: bv32, b: bv32, c: bv32)
    ensures Xor32(Xor32(a, b), c) == Xor32(a, Xor32(b, c))
    ensures Xor32(a, b) == Xor32(b, a)
    ensures Xor32(a, 0) == a && Xor32(a, a) == 0
  {
    hide Xor32;
    Xor32Assoc(a, b, c);
    Xor32Basics(a, b);
  }

  /** The unsigned value of a big-endian byte string. */
  function BeValue(s: seq<bv8>): nat {
    if s == [] then 0 else 256 * BeValue(s[..|s| - 1]) + s[|s| - 1] as int
  }

  function Pow256(n: nat): (p: nat)
    ensures p > 0
  {
    if n == 0 then 1 else 256 * Pow256(n - 1)
  }

  lemma {:induction false} BeValueBound(s: seq<bv8>)
    ensures BeValue(s) < Pow256(|s|)
  {
    if s != [] {
      BeValueBound(s[..|s| - 1]);
    }
  }

  lemma {:induction false} BeValueInjective(a: seq<bv8>, b: seq<bv8>)
    requires |a| == |b| && BeValue(a) == BeValue(b)
    ensures a == b
  {
    if a != [] {
      var n := |a| - 1;
      ByteRange(a[n]);
      ByteRange(b[n]);
      LastDigitUnique(BeValue(a[..n]), a[n] as int, BeValue(b[..n]), b[n] as int);
      BeValueInjective(a[..n], b[..n]);
      ByteIndexInjective(a[n], b[n]);
      assert a == a[..n] + [a[n]] && b == b[..n] + [b[n]];
    }
  }

  lemma LastDigitUnique(x: int, i: int, y: int, j: int)
    requires 0 <= i < 256 && 0 <= j < 256 && 256 * x + i == 256 * y + j
    ensures x == y && i == j
  {}

  lemma ByteRange(b: bv8)
    ensures 0 <= b as int < 256
  {}

  /** Quotient and remainder are determined by the division equation. */
  lemma ModUnique(v: int, q: int, r: int, m: nat)
    requires 0 <= r < m && v == q * m + r
    ensures v % m == r && v / m == q
  {
    var d := v / m - q;
    assert v % m == r - d * m;
  }
}
