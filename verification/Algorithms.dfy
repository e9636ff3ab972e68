/** The primitives behind IAlgorithm, and System.arraycopy. */
module Algorithms {
  import opened Bytes
  import opened JavaBytes

  type Bytes32 = s: Octets | |s| == 32 witness seq(32, i => 0)

  /** SHA-256, HMAC-SHA-256 and PBKDF2: any functions that return 32 bytes. */
  datatype Primitives = Primitives(
    sha256: Octets -> Bytes32, hmac: (Octets, Octets) -> Bytes32, pbkdf2: (Octets, Octets, int) -> Bytes32)

  /** getHmacSHA256: null when the key is empty. */
  function Mac(p: Primitives, key: Octets, data: Octets): Option<Octets> {
    if key == [] then None else Some(p.hmac(key, data))
  }

  /** System.arraycopy from position 0 of `src`; false where it throws. */
  method ArrayCopy(src: Octets, dst: array<bv8>, at: int, n: int) returns (ok: bool)
    modifies dst
    ensures ok == (0 <= n <= |src| && 0 <= at && at + n <= dst.Length)
    ensures !ok ==> dst[..] == old(dst[..])
    ensures ok ==> dst[..at + n] == old(dst[..at]) + src[..n]
    ensures ok ==> forall k :: at + n <= k < dst.Length ==> dst[k] == old(dst[k])
  {
    if !(0 <= n <= |src| && 0 <= at && at + n <= dst.Length) {
      return false;
    }
    var i := 0;
    while i < n
      invariant 0 <= i <= n
      invariant forall k :: 0 <= k < i ==> dst[at + k] == src[k]
      invariant forall k :: 0 <= k < dst.Length && !(at <= k < at + i) ==> dst[k] == old(dst[k])
    {
      dst[at + i] := src[i];
      i := i + 1;
    }
    assert dst[..at + n] == old(dst[..at]) + src[..n];
    ok := true;
  }
}
