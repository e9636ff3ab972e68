/** The chaining modes of aes.c: CBC, CFB128 and CTR (lines 755-905). */
module AesModes {
  import opened GF256
  import opened Fips197
  import opened BlockCipher
  import opened AesTables
  import opened AesKeys
  import opened AesBlock
  import opened BlockModes

  const INVALID_INPUT_LENGTH := -0x0022

  /** The block function of a schedule, as a value that the mode specifications take. */
  ghost function Cryptor(w: Schedule, nr: nat, mode: int): Block -> Block
    requires 1 <= nr && 4 * nr + 4 <= |w|
  {
    (b: Block) => CryptBlock(w, nr, mode, b)
  }

  /** The tables are ready and `ctx` is set up so that `aes_crypt_ecb` in this mode computes `e`. */
  ghost predicate Serves(t: Tables, ctx: Context, mode: int, e: Block -> Block)
    reads t, t.Arrays(), ctx, ctx.buf
  {
    && t.Ready() && ctx.Valid() && IsRoundCount(ctx.nr)
    && e == Cryptor(ctx.Words(4 * ctx.nr + 4), ctx.nr, mode)
  }

  /** Kept apart from the tables and the context. */
  ghost predicate Apart(t: Tables, ctx: Context, a: array<bv8>) {
    a !in t.Arrays() && (a as object) != ctx.buf && (a as object) != t && (a as object) != ctx
  }

  /** `a` holds `s` from offset `i`. */
  ghost predicate Holds(a: array<bv8>, i: nat, s: seq<bv8>)
    requires i + |s| <= a.Length
    reads a
  {
    forall k :: 0 <= k < |s| ==> a[i + k] == s[k]
  }

  lemma HoldsSlice(a: array<bv8>, i: nat, s: seq<bv8>)
    requires i + |s| <= a.Length
    ensures Holds(a, i, s) <==> a[i..i + |s|] == s
  {
    if a[i..i + |s|] == s {
      forall k | 0 <= k < |s| ensures a[i + k] == s[k] {
        assert a[i + k] == a[i..i + |s|][k];
      }
    }
  }

  /** aes_crypt_ecb, with the block function named. */
  method CryptOne(t: Tables, ctx: Context, mode: int, ghost e: Block -> Block, ghost x: Block,
                  input: array<bv8>, inOff: nat, output: array<bv8>, outOff: nat)
    requires Serves(t, ctx, mode, e) && Apart(t, ctx, output)
    requires inOff + 16 <= input.Length && outOff + 16 <= output.Length && Holds(input, inOff, x)
    modifies output
    ensures Serves(t, ctx, mode, e)
    ensures Holds(output, outOff, e(x)) && OthersUnchanged(output, outOff, 16)
  {
    hide CryptBlock, Tables.Ready;
    HoldsSlice(input, inOff, x);
    var ret := CryptEcb(t, ctx, mode, input, inOff, output, outOff);
    HoldsSlice(output, outOff, e(x));
    assert ctx.Words(4 * ctx.nr + 4) == old(ctx.Words(4 * ctx.nr + 4));
  }

  // ----- CBC

  /** memcpy of one block */
  method CopyBlock(ghost x: Block, dst: array<bv8>, src: array<bv8>, off: nat)
    requires dst.Length == 16 && off + 16 <= src.Length && dst != src && Holds(src, off, x)
    modifies dst
    ensures Holds(dst, 0, x)
  {
    var i := 0;
    while i < 16
      invariant 0 <= i <= 16
      invariant forall k :: 0 <= k < i ==> dst[k] == x[k]
    {
      dst[i] := src[off + i];
      i := i + 1;
    }
  }

  /** output[i] = input[i] ^ iv[i] over one block; the two may be the same bytes. */
  method XorBlock(ghost x: Block, ghost chain: Block, input: array<bv8>, inOff: nat, iv: array<bv8>,
                  output: array<bv8>, outOff: nat)
    requires iv.Length == 16 && iv != output && Holds(iv, 0, chain)
    requires inOff + 16 <= input.Length && outOff + 16 <= output.Length && Holds(input, inOff, x)
    requires input != output || outOff <= inOff || inOff + 16 <= outOff
    modifies output
    ensures Holds(output, outOff, XorBytes(x, chain)) && OthersUnchanged(output, outOff, 16)
  {
    hide Xor;
    var i := 0;
    while i < 16
      invariant 0 <= i <= 16
      invariant forall k :: 0 <= k < i ==> output[outOff + k] == Xor(x[k], chain[k])
      invariant forall k :: i <= k < 16 ==> input[inOff + k] == x[k]
      invariant OthersUnchanged(output, outOff, 16)
    {
      assert iv[0 + i] == chain[i];
      output[outOff + i] := Xor(input[inOff + i], iv[i]);
      i := i + 1;
    }
  }

  method CbcEncryptBlock(t: Tables, ctx: Context, mode: int, ghost e: Block -> Block, ghost x: Block,
                         ghost chain: Block,
                         iv: array<bv8>, input: array<bv8>, inOff: nat, output: array<bv8>, outOff: nat)
    requires Serves(t, ctx, mode, e) && Apart(t, ctx, iv) && Apart(t, ctx, output)
    requires iv.Length == 16 && iv != input && iv != output && Holds(iv, 0, chain)
    requires inOff + 16 <= input.Length && outOff + 16 <= output.Length && Holds(input, inOff, x)
    requires input != output || outOff <= inOff || inOff + 16 <= outOff
    modifies iv, output
    ensures Serves(t, ctx, mode, e)
    ensures Holds(output, outOff, e(XorBytes(x, chain))) && OthersUnchanged(output, outOff, 16)
    ensures Holds(iv, 0, e(XorBytes(x, chain)))
  {
    hide XorBytes, Holds, Serves;
    XorBlock(x, chain, input, inOff, iv, output, outOff);
    CryptOne(t, ctx, mode, e, XorBytes(x, chain), output, outOff, output, outOff);
    CopyBlock(e(XorBytes(x, chain)), iv, output, outOff);
  }

  method CbcDecryptBlock(t: Tables, ctx: Context, ghost e: Block -> Block, ghost x: Block, ghost chain: Block,
                         iv: array<bv8>, input: array<bv8>, inOff: nat, output: array<bv8>, outOff: nat)
    requires Serves(t, ctx, AES_DECRYPT, e) && Apart(t, ctx, iv) && Apart(t, ctx, output)
    requires iv.Length == 16 && iv != input && iv != output && Holds(iv, 0, chain)
    requires inOff + 16 <= input.Length && outOff + 16 <= output.Length && Holds(input, inOff, x)
    modifies iv, output
    ensures Serves(t, ctx, AES_DECRYPT, e)
    ensures Holds(output, outOff, XorBytes(e(x), chain)) && OthersUnchanged(output, outOff, 16)
    ensures Holds(iv, 0, x)
  {
    hide XorBytes, Serves;
    var temp := new bv8[16];
    CopyBlock(x, temp, input, inOff);
    CryptOne(t, ctx, AES_DECRYPT, e, x, input, inOff, output, outOff);
    XorBlock(e(x), chain, output, outOff, iv, output, outOff);
    CopyBlock(x, iv, temp, 0);
  }

  /** What aes_crypt_cbc writes for the input bytes `data`, a whole number of blocks. */
  ghost function CbcResult(e: Block -> Block, mode: int, iv: Block, data: seq<bv8>): (r: seq<bv8>)
    requires |data| % 16 == 0
    ensures |r| == |data|
  {
    if mode == AES_DECRYPT then CbcDecrypt(e, iv, data) else CbcEncrypt(e, iv, data)
  }

  /** What it leaves in the iv buffer. */
  ghost function CbcFinalIv(e: Block -> Block, mode: int, iv: Block, data: seq<bv8>): Block
    requires |data| % 16 == 0
  {
    if mode == AES_DECRYPT then CbcChain(iv, data) else CbcChain(iv, CbcEncrypt(e, iv, data))
  }

  /** One more block: `out` and `chain` are the new output block and chaining value. */
  lemma CbcOneMore(e: Block -> Block, mode: int, iv: Block, data: seq<bv8>, n: nat, x: Block, chain: Block)
    requires n % 16 == 0 && n + 16 <= |data| && x == data[n..n + 16] && chain == CbcFinalIv(e, mode, iv, data[..n])
    ensures CbcResult(e, mode, iv, data[..n + 16]) ==
            CbcResult(e, mode, iv, data[..n]) +
            (if mode == AES_DECRYPT then XorBytes(e(x), chain) else e(XorBytes(x, chain)))
    ensures CbcFinalIv(e, mode, iv, data[..n + 16]) ==
            if mode == AES_DECRYPT then x else e(XorBytes(x, chain))
  {
    hide XorBytes, CbcEncrypt, CbcDecrypt;
    assert data[..n + 16] == data[..n] + x;
    CbcDecryptSnoc(e, iv, data[..n], x);
    CbcEncryptSnoc(e, iv, data[..n], x);
  }

  lemma CbcNothing(e: Block -> Block, mode: int, iv: Block)
    ensures CbcResult(e, mode, iv, []) == [] && CbcFinalIv(e, mode, iv, []) == iv
  {}

  lemma HoldsAppend(a: array<bv8>, i: nat, s: seq<bv8>, r: seq<bv8>)
    requires i + |s| + |r| <= a.Length && Holds(a, i, s) && Holds(a, i + |s|, r)
    ensures Holds(a, i, s + r)
  {
    forall k | 0 <= k < |s + r| ensures a[i + k] == (s + r)[k] {
      if k >= |s| {
        assert a[i + |s| + (k - |s|)] == r[k - |s|];
      }
    }
  }

  lemma HoldsNothing(a: array<bv8>, i: nat)
    requires i <= a.Length
    ensures Holds(a, i, [])
  {}

  lemma HoldsPart(a: array<bv8>, i: nat, s: seq<bv8>, lo: nat, hi: nat)
    requires i + |s| <= a.Length && Holds(a, i, s) && lo <= hi <= |s|
    ensures Holds(a, i + lo, s[lo..hi])
  {
    forall k | 0 <= k < hi - lo ensures a[i + lo + k] == s[lo..hi][k] {
      assert a[i + (lo + k)] == s[lo + k];
    }
  }

  /** aes_crypt_cbc. The output may be the input itself, or overlap it from below. */
  method CryptCbc(t: Tables, ctx: Context, mode: int, ghost e: Block -> Block, length: nat,
                  ghost iv0: Block, ghost data: seq<bv8>,
                  iv: array<bv8>, input: array<bv8>, inOff: nat, output: array<bv8>, outOff: nat) returns (ret: int)
    requires Serves(t, ctx, mode, e) && Apart(t, ctx, iv) && Apart(t, ctx, output)
    requires iv.Length == 16 && iv != input && iv != output && Holds(iv, 0, iv0)
    requires |data| == length && inOff + length <= input.Length && Holds(input, inOff, data)
    requires outOff + length <= output.Length
    requires input != output || outOff <= inOff || inOff + length <= outOff
    modifies iv, output
    ensures Serves(t, ctx, mode, e)
    ensures ret == if length % 16 == 0 then 0 else INVALID_INPUT_LENGTH
    ensures ret != 0 ==> iv[..] == old(iv[..]) && output[..] == old(output[..])
    ensures ret == 0 ==>
              Holds(output, outOff, CbcResult(e, mode, iv0, data)) && Holds(iv, 0, CbcFinalIv(e, mode, iv0, data))
    ensures OthersUnchanged(output, outOff, length)
  {
    hide Serves, Holds, XorBytes, CbcResult, CbcFinalIv, Tables.Arrays, Apart;
    if length % 16 != 0 {
      return INVALID_INPUT_LENGTH;
    }
    CbcNothing(e, mode, iv0);
    HoldsNothing(output, outOff);
    ghost var done, chain: Block := [], iv0;
    var n := 0;
    while n < length
      invariant 0 <= n <= length && n % 16 == 0
      invariant Serves(t, ctx, mode, e)
      invariant done == CbcResult(e, mode, iv0, data[..n]) && chain == CbcFinalIv(e, mode, iv0, data[..n])
      invariant Holds(output, outOff, done) && Holds(iv, 0, chain)
      invariant Holds(input, inOff + n, data[n..])
      invariant OthersUnchanged(output, outOff, length)
    {
      CbcOneMore(e, mode, iv0, data, n, data[n..n + 16], chain);
      done, chain := CbcAdvance(t, ctx, mode, e, data, n, done, data[n..n + 16], chain, iv, input, inOff, output,
                                outOff);
      n := n + 16;
    }
    assert data[..length] == data;
    ret := 0;
  }

  /** One iteration of either CBC loop. */
  method CbcAdvance(t: Tables, ctx: Context, mode: int, ghost e: Block -> Block, ghost data: seq<bv8>, n: nat,
                    ghost done: seq<bv8>, ghost x: Block, ghost chain: Block,
                    iv: array<bv8>, input: array<bv8>, inOff: nat, output: array<bv8>, outOff: nat)
    returns (ghost done': seq<bv8>, ghost chain': Block)
    requires Serves(t, ctx, mode, e) && Apart(t, ctx, iv) && Apart(t, ctx, output)
    requires iv.Length == 16 && iv != input && iv != output && Holds(iv, 0, chain)
    requires |done| == n && n + 16 <= |data| && x == data[n..n + 16]
    requires inOff + |data| <= input.Length && Holds(input, inOff + n, data[n..])
    requires outOff + |data| <= output.Length && Holds(output, outOff, done)
    requires input != output || outOff <= inOff || inOff + |data| <= outOff
    modifies iv, output
    ensures Serves(t, ctx, mode, e)
    ensures done' == done + if mode == AES_DECRYPT then XorBytes(e(x), chain) else e(XorBytes(x, chain))
    ensures chain' == if mode == AES_DECRYPT then x else e(XorBytes(x, chain))
    ensures Holds(output, outOff, done') && Holds(iv, 0, chain')
    ensures Holds(input, inOff + n + 16, data[n + 16..])
    ensures OthersUnchanged(output, outOff + n, 16)
  {
    hide Serves, XorBytes, Tables.Arrays, Apart;
    HoldsPart(input, inOff + n, data[n..], 0, 16);
    HoldsPart(input, inOff + n, data[n..], 16, |data| - n);
    if mode == AES_DECRYPT {
      CbcDecryptBlock(t, ctx, e, x, chain, iv, input, inOff + n, output, outOff + n);
      HoldsAppend(output, outOff, done, XorBytes(e(x), chain));
      done', chain' := done + XorBytes(e(x), chain), x;
    } else {
      CbcEncryptBlock(t, ctx, mode, e, x, chain, iv, input, inOff + n, output, outOff + n);
      HoldsAppend(output, outOff, done, e(XorBytes(x, chain)));
      done', chain' := done + e(XorBytes(x, chain)), e(XorBytes(x, chain));
    }
  }

  // ----- CFB128

  /** One byte of aes_crypt_cfb128: refill at a block boundary, mask, and feed the ciphertext byte back. */
  method CfbOne(t: Tables, ctx: Context, mode: int, ghost e: Block -> Block, ghost s: CfbState,
                iv: array<bv8>, n: nat, x: bv8) returns (y: bv8, n': nat)
    requires Serves(t, ctx, AES_ENCRYPT, e) && Apart(t, ctx, iv)
    requires iv.Length == 16 && n < 16 && s.n == n && Holds(iv, 0, s.iv)
    modifies iv
    ensures Serves(t, ctx, AES_ENCRYPT, e)
    ensures y == CfbByte(e, s, x)
    ensures
      var next := CfbNext(e, s, if mode == AES_DECRYPT then x else y);
      n' == next.n && Holds(iv, 0, next.iv)
  {
    hide Serves, Xor;
    if n == 0 {
      CryptOne(t, ctx, AES_ENCRYPT, e, s.iv, iv, 0, iv, 0);
    }
    assert Holds(iv, 0, CfbReady(e, s));
    assert iv[0 + n] == CfbReady(e, s)[n];
    y := Xor(x, iv[n]);
    iv[n] := if mode == AES_DECRYPT then x else y;
    n' := (n + 1) % 16;
  }

  ghost function CfbResult(e: Block -> Block, mode: int, s: CfbState, data: seq<bv8>): (r: seq<bv8>)
    requires s.n < 16
    ensures |r| == |data|
  {
    if mode == AES_DECRYPT then CfbDecrypt(e, s, data) else CfbEncrypt(e, s, data)
  }

  ghost function CfbFinal(e: Block -> Block, mode: int, s: CfbState, data: seq<bv8>): (s': CfbState)
    requires s.n < 16
    ensures s'.n < 16
  {
    CfbAfter(e, s, if mode == AES_DECRYPT then data else CfbEncrypt(e, s, data))
  }

  lemma CfbNothing(e: Block -> Block, mode: int, s: CfbState)
    requires s.n < 16
    ensures CfbResult(e, mode, s, []) == [] && CfbFinal(e, mode, s, []) == s
  {}

  lemma CfbOneMore(e: Block -> Block, mode: int, s: CfbState, data: seq<bv8>, n: nat)
    requires s.n < 16 && n < |data|
    ensures
      var now := CfbFinal(e, mode, s, data[..n]);
      var y := CfbByte(e, now, data[n]);
      && CfbResult(e, mode, s, data[..n + 1]) == CfbResult(e, mode, s, data[..n]) + [y]
      && CfbFinal(e, mode, s, data[..n + 1]) == CfbNext(e, now, if mode == AES_DECRYPT then data[n] else y)
  {
    var p, x := data[..n], data[n];
    assert data[..n + 1] == p + [x];
    if mode == AES_DECRYPT {
      CfbDecryptAppend(e, s, p, [x]);
      CfbSingle(e, CfbAfter(e, s, p), x);
    } else {
      var c := CfbEncrypt(e, s, p);
      CfbEncryptAppend(e, s, p, [x]);
      CfbSingle(e, CfbAfter(e, s, c), x);
      CfbDecryptAppend(e, s, c, [CfbByte(e, CfbAfter(e, s, c), x)]);
      CfbSingle(e, CfbAfter(e, s, c), CfbByte(e, CfbAfter(e, s, c), x));
    }
    hide CfbEncrypt, CfbDecrypt, CfbAfter, CfbByte, CfbNext;
  }

  lemma CfbSingle(e: Block -> Block, s: CfbState, x: bv8)
    requires s.n < 16
    ensures CfbEncrypt(e, s, [x]) == [CfbByte(e, s, x)]
    ensures CfbDecrypt(e, s, [x]) == [CfbByte(e, s, x)]
    ensures CfbAfter(e, s, [x]) == CfbNext(e, s, x)
  {
    hide CfbByte, CfbNext;
    var s1 := CfbNext(e, s, x);
    assert [x][1..] == [];
    assert CfbAfter(e, s1, []) == s1;
    assert CfbDecrypt(e, s1, []) == [];
    assert CfbEncrypt(e, CfbNext(e, s, CfbByte(e, s, x)), []) == [];
  }

  /** aes_crypt_cfb128; the result `n` is the new value of `*iv_off`. */
  method CryptCfb128(t: Tables, ctx: Context, mode: int, ghost e: Block -> Block, length: nat, ivOff: nat,
                     ghost s: CfbState, ghost data: seq<bv8>,
                     iv: array<bv8>, input: array<bv8>, inOff: nat, output: array<bv8>, outOff: nat)
    returns (ret: int, n: nat)
    requires Serves(t, ctx, AES_ENCRYPT, e) && Apart(t, ctx, iv) && Apart(t, ctx, output)
    requires iv.Length == 16 && iv != input && iv != output
    requires ivOff < 16 && s.n == ivOff && Holds(iv, 0, s.iv)
    requires |data| == length && inOff + length <= input.Length && Holds(input, inOff, data)
    requires outOff + length <= output.Length
    requires input != output || outOff <= inOff || inOff + length <= outOff
    modifies iv, output
    ensures Serves(t, ctx, AES_ENCRYPT, e) && ret == 0
    ensures Holds(output, outOff, CfbResult(e, mode, s, data))
    ensures
      var final := CfbFinal(e, mode, s, data);
      n == final.n && Holds(iv, 0, final.iv)
    ensures OthersUnchanged(output, outOff, length)
  {
    hide Serves, CfbResult, CfbFinal, CfbByte, CfbNext;
    CfbNothing(e, mode, s);
    n := ivOff;
    ghost var done, now := [], s;
    var k := 0;
    while k < length
      invariant 0 <= k <= length && Serves(t, ctx, AES_ENCRYPT, e)
      invariant done == CfbResult(e, mode, s, data[..k]) && now == CfbFinal(e, mode, s, data[..k])
      invariant n == now.n < 16 && Holds(iv, 0, now.iv)
      invariant forall j :: 0 <= j < k ==> output[outOff + j] == done[j]
      invariant forall j :: k <= j < length ==> input[inOff + j] == data[j]
      invariant OthersUnchanged(output, outOff, length)
    {
      CfbOneMore(e, mode, s, data, k);
      var c := input[inOff + k];
      var y;
      y, n := CfbOne(t, ctx, mode, e, now, iv, n, c);
      output[outOff + k] := y;
      now := CfbNext(e, now, if mode == AES_DECRYPT then c else y);
      done := done + [y];
      k := k + 1;
    }
    assert data[..length] == data;
    ret := 0;
  }

  // ----- CTR

  /** Bytes before `i` are still those of `c`; the others are `tail`. */
  ghost predicate Carrying(counter: array<bv8>, c: seq<bv8>, i: nat, tail: seq<bv8>)
    reads counter
  {
    counter.Length == |c| == 16 && i <= 16 && counter[..] == c[..i] + tail
  }

  /** What is left to do: increment the first `i` bytes if `carry`. */
  ghost predicate CarryLeft(c: seq<bv8>, i: nat, tail: seq<bv8>, carry: bool)
    requires i <= |c|
  {
    Increment(c) == (if carry then Increment(c[..i]) else c[..i]) + tail
  }

  /** The carry loop: a do-while that ends at the first byte that does not wrap, or after byte 0. */
  method BumpCounter(counter: array<bv8>, ghost c: seq<bv8>)
    requires counter.Length == 16 && |c| == 16 && Holds(counter, 0, c)
    modifies counter
    ensures Holds(counter, 0, Increment(c))
  {
    hide Carrying, CarryLeft, Increment, Holds;
    CarryStart(counter, c);
    var i, cb := 15, true;
    ghost var tail;
    cb, tail := BumpByte(counter, c, 15, []);
    while i > 0 && cb
      invariant 0 <= i <= 15 && Carrying(counter, c, i, tail) && CarryLeft(c, i, tail, cb)
    {
      i := i - 1;
      cb, tail := BumpByte(counter, c, i, tail);
    }
    CarryEnd(counter, c, i, tail, cb);
  }

  /** The body of the loop. */
  method BumpByte(counter: array<bv8>, ghost c: seq<bv8>, i: nat, ghost tail: seq<bv8>)
    returns (cb: bool, ghost rest: seq<bv8>)
    requires |c| == 16 && i < 16 && Carrying(counter, c, i + 1, tail) && CarryLeft(c, i + 1, tail, true)
    modifies counter
    ensures Carrying(counter, c, i, rest) && CarryLeft(c, i, rest, cb)
  {
    hide CarryLeft;
    CarryOn(c, i, tail);
    CarriedByte(c, i, tail);
    ghost var before := counter[..];
    counter[i] := counter[i] + 1;
    cb := counter[i] == 0;
    rest := [c[i] + 1] + tail;
    assert counter[..] == before[i := c[i] + 1];
  }

  lemma CarryStart(counter: array<bv8>, c: seq<bv8>)
    requires counter.Length == 16 && |c| == 16 && Holds(counter, 0, c)
    ensures Carrying(counter, c, 16, []) && CarryLeft(c, 16, [], true)
  {
    hide Increment;
    HoldsSlice(counter, 0, c);
    assert counter[..] == c && c[..16] == c && c + [] == c && Increment(c) + [] == Increment(c);
  }

  lemma CarriedByte(c: seq<bv8>, i: nat, tail: seq<bv8>)
    requires i < |c|
    ensures (c[..i + 1] + tail)[i] == c[i]
    ensures (c[..i + 1] + tail)[i := c[i] + 1] == c[..i] + ([c[i] + 1] + tail)
  {}

  lemma CarryOn(c: seq<bv8>, i: nat, tail: seq<bv8>)
    requires i < |c| && CarryLeft(c, i + 1, tail, true)
    ensures CarryLeft(c, i, [c[i] + 1] + tail, c[i] + 1 == 0)
  {
    hide Increment;
    var head := if c[i] + 1 == 0 then Increment(c[..i]) else c[..i];
    calc {
      Increment(c);
      Increment(c[..i + 1]) + tail;
      { IncrementStep(c[..i + 1], i); assert c[..i + 1][..i] == c[..i]; }
      head + [c[i] + 1] + tail;
      { AppendAssoc(head, [c[i] + 1], tail); }
      head + ([c[i] + 1] + tail);
    }
  }

  /** A carry out of byte 0 is lost. */
  lemma CarryEnd(counter: array<bv8>, c: seq<bv8>, i: nat, tail: seq<bv8>, cb: bool)
    requires Carrying(counter, c, i, tail) && i <= |c| && CarryLeft(c, i, tail, cb) && (i == 0 || !cb)
    ensures Holds(counter, 0, Increment(c))
  {
    NoDigits();
    hide Increment;
    assert c[..0] == [] && counter[..] == Increment(c);
    assert forall k :: 0 <= k < 16 ==> counter[0 + k] == counter[..][k];
  }

  /** One byte of aes_crypt_ctr. */
  method CtrOne(t: Tables, ctx: Context, ghost e: Block -> Block, ghost s: CtrState,
                counter: array<bv8>, stream: array<bv8>, n: nat, x: bv8) returns (y: bv8, n': nat)
    requires Serves(t, ctx, AES_ENCRYPT, e) && Apart(t, ctx, counter) && Apart(t, ctx, stream)
    requires counter.Length == 16 && stream.Length == 16 && counter != stream
    requires n < 16 && s.n == n && Holds(counter, 0, s.counter) && Holds(stream, 0, s.stream)
    modifies counter, stream
    ensures Serves(t, ctx, AES_ENCRYPT, e)
    ensures y == Xor(x, CtrReady(e, s).stream[n])
    ensures
      var next := CtrNext(e, s);
      n' == next.n && Holds(counter, 0, next.counter) && Holds(stream, 0, next.stream)
  {
    hide Serves, Xor, Increment;
    if n == 0 {
      CryptOne(t, ctx, AES_ENCRYPT, e, s.counter, counter, 0, stream, 0);
      BumpCounter(counter, s.counter);
    }
    assert stream[0 + n] == CtrReady(e, s).stream[n];
    y := Xor(x, stream[n]);
    n' := (n + 1) % 16;
  }

  lemma CtrOneMore(e: Block -> Block, s: CtrState, data: seq<bv8>, n: nat)
    requires s.n < 16 && n < |data|
    ensures
      var now := CtrAfter(e, s, n);
      && CtrCrypt(e, s, data[..n + 1]) == CtrCrypt(e, s, data[..n]) + [Xor(data[n], CtrReady(e, now).stream[now.n])]
      && CtrAfter(e, s, n + 1) == CtrNext(e, now)
  {
    hide Xor, CtrNext, CtrReady;
    assert data[..n + 1] == data[..n] + [data[n]];
    CtrAppend(e, s, data[..n], [data[n]]);
    CtrAfterLast(e, s, n);
    var now := CtrAfter(e, s, n);
    CtrHead(e, now, [data[n]]);
  }

  /** aes_crypt_ctr; the result `n` is the new value of `*nc_off`. */
  method CryptCtr(t: Tables, ctx: Context, ghost e: Block -> Block, length: nat, ncOff: nat,
                  ghost s: CtrState, ghost data: seq<bv8>,
                  counter: array<bv8>, stream: array<bv8>, input: array<bv8>, inOff: nat, output: array<bv8>,
                    outOff: nat)
    returns (ret: int, n: nat)
    requires Serves(t, ctx, AES_ENCRYPT, e)
    requires Apart(t, ctx, counter) && Apart(t, ctx, stream) && Apart(t, ctx, output)
    requires counter.Length == 16 && stream.Length == 16 && counter != stream
    requires counter != input && counter != output && stream != input && stream != output
    requires ncOff < 16 && s.n == ncOff && Holds(counter, 0, s.counter) && Holds(stream, 0, s.stream)
    requires |data| == length && inOff + length <= input.Length && Holds(input, inOff, data)
    requires outOff + length <= output.Length
    requires input != output || outOff <= inOff || inOff + length <= outOff
    modifies counter, stream, output
    ensures Serves(t, ctx, AES_ENCRYPT, e) && ret == 0
    ensures Holds(output, outOff, CtrCrypt(e, s, data))
    ensures
      var final := CtrAfter(e, s, length);
      n == final.n && Holds(counter, 0, final.counter) && Holds(stream, 0, final.stream)
    ensures OthersUnchanged(output, outOff, length)
  {
    hide Serves, CtrCrypt, CtrNext, CtrReady, Xor;
    CtrNothing(e, s);
    n := ncOff;
    ghost var done, now := [], s;
    var k := 0;
    while k < length
      invariant 0 <= k <= length && Serves(t, ctx, AES_ENCRYPT, e)
      invariant done == CtrCrypt(e, s, data[..k]) && now == CtrAfter(e, s, k)
      invariant n == now.n < 16 && Holds(counter, 0, now.counter) && Holds(stream, 0, now.stream)
      invariant forall j :: 0 <= j < k ==> output[outOff + j] == done[j]
      invariant forall j :: k <= j < length ==> input[inOff + j] == data[j]
      invariant OthersUnchanged(output, outOff, length)
    {
      CtrOneMore(e, s, data, k);
      var c := input[inOff + k];
      var y;
      y, n := CtrOne(t, ctx, e, now, counter, stream, n, c);
      output[outOff + k] := y;
      now := CtrNext(e, now);
      done := done + [y];
      k := k + 1;
    }
    assert data[..length] == data;
    ret := 0;
  }

  lemma CtrNothing(e: Block -> Block, s: CtrState)
    requires s.n < 16
    ensures CtrCrypt(e, s, []) == []
  {}
}
