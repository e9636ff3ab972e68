/** PKCS#7 padding around AES-256-CBC with a zero iv: crypto.c (lines 4-65). */
module Crypto {
  import opened Bytes
  import opened GF256
  import opened Fips197
  import opened BlockCipher
  import opened AesTables
  import opened AesKeys
  import opened AesBlock
  import opened BlockModes
  import opened AesModes

  function ZeroIv(): Block { seq(16, i => 0) }

  // ----- keys as block functions

  ghost function EncryptUnder(key: seq<bv8>): Block -> Block
    requires IsKey(key)
  {
    Cryptor(KeyExpansion(key), RoundCount(key), AES_ENCRYPT)
  }

  ghost function DecryptUnder(key: seq<bv8>): Block -> Block
    requires IsKey(key)
  {
    Cryptor(DecSchedule(KeyExpansion(key), RoundCount(key)), RoundCount(key), AES_DECRYPT)
  }

  /** aes_crypt_ecb under the two schedules is the cipher of FIPS 197 and its inverse. */
  lemma BlockFunctionsCorrect(key: seq<bv8>, b: Block)
    requires IsKey(key)
    ensures EncryptUnder(key)(b) == EncryptBlock(key, b)
    ensures DecryptUnder(key)(b) == DecryptBlock(key, b)
  {
    hide ToBytes, FromBytes, Cipher, InvCipher, EqInvCipher, DecSchedule, KeyExpansion, IsDecryptionSchedule;
    var w, nr := KeyExpansion(key), RoundCount(key);
    DecScheduleCorrect(w, nr);
    EqInvCipherCorrect(DecSchedule(w, nr), w, nr, FromBytes(b));
  }

  /** For every key of 128, 192 or 256 bits, each of the two block functions undoes the other. */
  lemma BlockFunctionsUndo(key: seq<bv8>)
    requires IsKey(key)
    ensures Undoes(DecryptUnder(key), EncryptUnder(key))
    ensures Undoes(EncryptUnder(key), DecryptUnder(key))
  {
    hide EncryptUnder, DecryptUnder, EncryptBlock, DecryptBlock;
    forall b: Block
      ensures DecryptUnder(key)(EncryptUnder(key)(b)) == b && EncryptUnder(key)(DecryptUnder(key)(b)) == b
    {
      DecryptUndoesEncrypt(key, b);
      BlockFunctionsCorrect(key, b);
      BlockFunctionsCorrect(key, EncryptBlock(key, b));
      BlockFunctionsCorrect(key, DecryptBlock(key, b));
    }
  }

  // ----- padding

  function PadLength(n: nat): (p: nat)
    ensures 1 <= p <= 16 && (n + p) % 16 == 0
  {
    16 - n % 16
  }

  function Pad(m: seq<bv8>): (p: seq<bv8>)
    ensures |p| == |m| + PadLength(|m|)
  {
    m + seq(PadLength(|m|), i => ByteOf(PadLength(|m|)))
  }

  /** PaddingData: appends the padding in place and returns the padded length. */
  method PaddingData(data: array<bv8>, len: nat, ghost m: seq<bv8>) returns (padded: nat)
    requires len == |m| && len + PadLength(len) <= data.Length && Holds(data, 0, m)
    modifies data
    ensures padded == |Pad(m)| && Holds(data, 0, Pad(m))
  {
    hide ByteOf;
    var paddingLen := 16 - len % 16;
    var i := 0;
    while i < paddingLen
      invariant 0 <= i <= paddingLen
      invariant Holds(data, 0, m)
      invariant forall k :: len <= k < len + i ==> data[k] == ByteOf(paddingLen)
    {
      data[len + i] := ByteOf(paddingLen);
      i := i + 1;
    }
    forall k | 0 <= k < |Pad(m)| ensures data[0 + k] == Pad(m)[k] {
      if k < len {
        assert data[0 + k] == m[k];
      }
    }
    padded := len + paddingLen;
  }

  // ----- what the two functions compute

  ghost function AesCiphertext(key: seq<bv8>, m: seq<bv8>): (c: seq<bv8>)
    requires IsKey(key)
    ensures |c| == |Pad(m)|
  {
    CbcEncrypt(EncryptUnder(key), ZeroIv(), Pad(m))
  }

  ghost function AesPadded(key: seq<bv8>, c: seq<bv8>): (p: seq<bv8>)
    requires IsKey(key) && |c| % 16 == 0
    ensures |p| == |c|
  {
    CbcDecrypt(DecryptUnder(key), ZeroIv(), c)
  }

  /** The output length that AesDecrypt reports: the last byte is taken as the padding length, unchecked. */
  ghost function AesPlainLength(key: seq<bv8>, c: seq<bv8>): int
    requires IsKey(key) && |c| % 16 == 0 && c != []
  {
    |c| - AesPadded(key, c)[|c| - 1] as int
  }

  /** AesDecrypt of AesEncrypt gives back the exact bytes and length; the ciphertext is the least
      multiple of 16 bytes above the message length. */
  lemma AesRoundTrip(key: seq<bv8>, m: seq<bv8>)
    requires IsKey(key)
    ensures
      var c := AesCiphertext(key, m);
      && |c| % 16 == 0 && |m| < |c| <= |m| + 16 && AesPadded(key, c) == Pad(m)
      && AesPlainLength(key, c) == |m| && AesPadded(key, c)[..|m|] == m
  {
    hide ByteOf, EncryptUnder, DecryptUnder, CbcEncrypt, CbcDecrypt;
    BlockFunctionsUndo(key);
    CbcDecryptUndoesEncrypt(EncryptUnder(key), DecryptUnder(key), ZeroIv(), Pad(m));
    ByteOfValue(PadLength(|m|));
  }

  /** The bytes behind the message: 1 to 16 of them, each holding their number. */
  lemma PadBytes(m: seq<bv8>)
    ensures
      var n := |Pad(m)| - |m|;
      && 1 <= n <= 16 && |Pad(m)| % 16 == 0 && Pad(m)[..|m|] == m
      && forall k :: |m| <= k < |Pad(m)| ==> Pad(m)[k] as int == n
  {
    hide ByteOf;
    ByteOfValue(PadLength(|m|));
  }

  /** Block by block: the first plaintext block goes into the cipher as it is, each other one with the ciphertext
      block before it. */
  lemma CiphertextBlocks(key: seq<bv8>, m: seq<bv8>, k: nat)
    requires IsKey(key) && 16 * k + 16 <= |Pad(m)|
    ensures
      var c, p := AesCiphertext(key, m), Pad(m);
      BlockAt(c, k) == EncryptBlock(key, if k == 0 then BlockAt(p, 0) else XorBytes(BlockAt(p, k), BlockAt(c, k - 1)))
  {
    hide EncryptUnder, EncryptBlock, CbcEncrypt, Pad, XorBytes, BlockAt;
    var c, p := AesCiphertext(key, m), Pad(m);
    CbcIsChained(EncryptUnder(key), ZeroIv(), p, k);
    AddZeroIv(BlockAt(p, k));
    BlockFunctionsCorrect(key, XorBytes(BlockAt(p, k), if k == 0 then ZeroIv() else BlockAt(c, k - 1)));
  }

  lemma AddZeroIv(b: Block)
    ensures XorBytes(b, ZeroIv()) == b
  {
    hide Xor;
    forall i | 0 <= i < 16 ensures XorBytes(b, ZeroIv())[i] == b[i] {
      XorSelf(b[i]);
    }
  }

  // ----- the two functions

  method EncryptContext(t: Tables, key: array<bv8>) returns (aes: Context)
    requires t.Valid() && key !in t.Arrays() && key.Length >= 32
    modifies t, t.Arrays()
    ensures fresh(aes) && fresh(aes.buf) && Serves(t, aes, AES_ENCRYPT, EncryptUnder(key[..32])) && t.Valid()
  {
    hide Cryptor, KeyExpansion, Tables.SboxesReady, Tables.RconReady, Tables.RoundTablesReady;
    aes := new Context();
    var ret := SetKeyEnc(t, aes, key, 256);
  }

  method DecryptContext(t: Tables, key: array<bv8>) returns (aes: Context)
    requires t.Valid() && key !in t.Arrays() && key.Length >= 32
    modifies t, t.Arrays()
    ensures fresh(aes) && fresh(aes.buf) && Serves(t, aes, AES_DECRYPT, DecryptUnder(key[..32])) && t.Valid()
  {
    hide Cryptor, KeyExpansion, DecSchedule, Tables.SboxesReady, Tables.RconReady, Tables.RoundTablesReady;
    aes := new Context();
    var ret := SetKeyDec(t, aes, key, 256);
  }

  /** The context for a call of aes_crypt_cbc in this mode, and the zero iv. */
  method Prepare(t: Tables, mode: int, key: array<bv8>) returns (aes: Context, iv: array<bv8>)
    requires t.Valid() && key !in t.Arrays() && key.Length >= 32 && mode in {AES_ENCRYPT, AES_DECRYPT}
    modifies t, t.Arrays()
    ensures fresh(aes) && fresh(aes.buf) && fresh(iv) && iv.Length == 16 && Holds(iv, 0, ZeroIv())
    ensures Apart(t, aes, iv)
    ensures Serves(t, aes, mode, if mode == AES_DECRYPT then DecryptUnder(key[..32]) else EncryptUnder(key[..32]))
    ensures t.Valid()
  {
    hide Serves, DecryptUnder, EncryptUnder, Tables.Valid;
    if mode == AES_DECRYPT {
      aes := DecryptContext(t, key);
    } else {
      aes := EncryptContext(t, key);
    }
    iv := new bv8[16](i => 0);
  }

  /** AesEncrypt; `outLen` is the value of `*OutDestLen` on return. */
  method AesEncrypt(t: Tables, inSource: array?<bv8>, inLen: nat, ghost m: seq<bv8>, outDest: array?<bv8>,
                    outLenIn: int, inKey: array<bv8>, inKeyLen: int) returns (ret: int, outLen: int)
    requires t.Valid() && inKey !in t.Arrays() && inSource !in t.Arrays() && outDest !in t.Arrays()
    requires inKeyLen == 32 ==> inKey.Length >= 32
    requires inSource != null ==> |m| == inLen <= inSource.Length && Holds(inSource, 0, m)
    requires inKeyLen == 32 && inSource != null && inLen != 0 && outDest != null ==>
               inLen + PadLength(inLen) <= inSource.Length && inLen + PadLength(inLen) <= outDest.Length
    modifies t, t.Arrays(), inSource, outDest
    ensures t.Valid()
    ensures ret == if inKeyLen == 32 && inSource != null && inLen != 0 && outDest != null then 0 else -1
    ensures ret != 0 ==> outLen == outLenIn
    ensures ret == 0 ==>
              var c := AesCiphertext(old(inKey[..32]), m);
              outLen == |c| && |c| <= outDest.Length && Holds(outDest, 0, c)
  {
    hide Tables.Valid, Serves, Pad, EncryptUnder, Holds, CbcEncrypt;
    outLen := outLenIn;
    if inKeyLen != 32 || inSource == null || inLen == 0 || outDest == null {
      return -1, outLen;
    }
    ghost var e := EncryptUnder(inKey[..32]);
    var aes, iv := Prepare(t, AES_ENCRYPT, inKey);
    var padded := PaddingData(inSource, inLen, m);
    ret := CryptCbc(t, aes, AES_ENCRYPT, e, padded, ZeroIv(), Pad(m), iv, inSource, 0, outDest, 0);
    outLen := padded;
  }

  /** GetPaddingDataLen: the last byte, as it stands. */
  function GetPaddingDataLen(data: array<bv8>, len: nat): int
    requires 0 < len <= data.Length
    reads data
  {
    data[len - 1] as int
  }

  /** AesDecrypt */
  method AesDecrypt(t: Tables, inSource: array?<bv8>, inLen: nat, ghost c: seq<bv8>, outDest: array?<bv8>,
                    outLenIn: int, inKey: array<bv8>, inKeyLen: int) returns (ret: int, outLen: int)
    requires t.Valid() && inKey !in t.Arrays() && inSource !in t.Arrays() && outDest !in t.Arrays()
    requires inKeyLen == 32 ==> inKey.Length >= 32
    requires inSource != null ==> |c| == inLen && inLen <= inSource.Length && Holds(inSource, 0, c)
    requires outDest != null ==> inLen <= outDest.Length
    modifies t, t.Arrays(), outDest
    ensures t.Valid()
    ensures ret == if inKeyLen == 32 && inSource != null && inLen != 0 && outDest != null &&
            inLen % 16 == 0 then 0 else -1
    ensures ret != 0 ==> outLen == outLenIn
    ensures ret == 0 ==>
              && Holds(outDest, 0, AesPadded(old(inKey[..32]), c))
              && outLen == AesPlainLength(old(inKey[..32]), c)
  {
    hide Tables.Valid, Serves, DecryptUnder, CbcDecrypt;
    outLen := outLenIn;
    if inKeyLen != 32 || inSource == null || inLen == 0 || outDest == null {
      return -1, outLen;
    }
    ghost var key := inKey[..32];
    var aes, iv := Prepare(t, AES_DECRYPT, inKey);
    ret := CryptCbc(t, aes, AES_DECRYPT, DecryptUnder(key), inLen, ZeroIv(), c, iv, inSource, 0, outDest, 0);
    if ret != 0 {
      return -1, outLen;
    }
    assert outDest[0 + (inLen - 1)] == AesPadded(key, c)[inLen - 1];
    outLen := inLen - GetPaddingDataLen(outDest, inLen);
  }
}
