/** The cipher of the frames is AES-256 in CBC mode with PKCS#7 padding and a zero iv; the one of crypto.c is
    such a cipher, so what the handshake asks of a cipher can be met. */
module BodyCipher {
  import opened Bytes
  import opened JavaBytes
  import opened BlockCipher
  import opened Messages
  import opened Crypto

  ghost function Encrypt(m: Octets, key: Octets): Option<Octets> {
    if IsKey(key) then Some(AesCiphertext(key, m)) else None
  }

  /** None, for an exception, where the length is impossible or the padding is not whole. */
  ghost function Decrypt(c: Octets, key: Octets): Option<Octets> {
    if !IsKey(key) || c == [] || |c| % 16 != 0 then None
    else
      var n, padded := AesPlainLength(key, c), AesPadded(key, c);
      if 0 <= n <= |c| && padded == Pad(padded[..n]) then Some(padded[..n]) else None
  }

  ghost function Aes(): Cipher {
    Cipher((m, key) => Encrypt(m, key), (c, key) => Decrypt(c, key))
  }

  /** For every key of 16, 24 or 32 bytes. */
  lemma AesServes(key: Octets)
    requires IsKey(key)
    ensures Aes().Serves(key)
  {
    hide AesCiphertext, AesPadded, AesPlainLength;
    forall m: Octets
      ensures Encrypt(m, key).Some? && |Encrypt(m, key).value| == 16 * (|m| / 16 + 1)
      ensures Decrypt(Encrypt(m, key).value, key) == Some(m)
    {
      AesRoundTrip(key, m);
      NextMultiple(|m|, |AesCiphertext(key, m)|);
    }
  }

  lemma NextMultiple(m: nat, n: nat)
    requires n % 16 == 0 && m < n <= m + 16
    ensures n == 16 * (m / 16 + 1)
  {}
}
