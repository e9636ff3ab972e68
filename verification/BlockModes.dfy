/** CBC, CFB128 and CTR (NIST SP 800-38A, sections 6.2, 6.3 and 6.5) over an arbitrary block function.

    CFB and CTR are given twice: as the byte-at-a-time state machines that aes.c runs, and block by
    block as in the standard. The two are proved to agree. */
module BlockModes {
  import opened Bytes
  import opened GF256
  import opened Fips197

  function XorBytes(a: seq<bv8>, b: seq<bv8>): (r: seq<bv8>)
    requires |a| <= |b|
    ensures |r| == |a|
    ensures forall i :: 0 <= i < |a| ==> r[i] == Xor(a[i], b[i])
  {
    seq(|a|, i requires 0 <= i < |a| => Xor(a[i], b[i]))
  }

  lemma XorBytesTwice(a: seq<bv8>, b: seq<bv8>)
    requires |a| <= |b|
    ensures XorBytes(XorBytes(a, b), b) == a
  {
    hide Xor;
    forall i | 0 <= i < |a| ensures XorBytes(XorBytes(a, b), b)[i] == a[i] {
      XorCancel(a[i], b[i]);
    }
  }

  lemma XorBytesCons(a: seq<bv8>, b: seq<bv8>)
    requires 0 < |a| <= |b|
    ensures XorBytes(a, b) == [Xor(a[0], b[0])] + XorBytes(a[1..], b[1..])
  {
    hide Xor;
  }

  lemma AppendAssoc(a: seq<bv8>, b: seq<bv8>, c: seq<bv8>)
    ensures a + b + c == a + (b + c)
  {}

  ghost predicate Undoes(d: Block -> Block, e: Block -> Block) {
    forall b :: d(e(b)) == b
  }

  // ----- CBC

  ghost function CbcEncrypt(e: Block -> Block, iv: Block, p: seq<bv8>): (c: seq<bv8>)
    requires |p| % 16 == 0
    ensures |c| == |p|
    decreases |p|
  {
    if p == [] then []
    else
      var c0: Block := e(XorBytes(p[..16], iv));
      c0 + CbcEncrypt(e, c0, p[16..])
  }

  ghost function CbcDecrypt(d: Block -> Block, iv: Block, c: seq<bv8>): (p: seq<bv8>)
    requires |c| % 16 == 0
    ensures |p| == |c|
    decreases |c|
  {
    if c == [] then []
    else XorBytes(d(c[..16]), iv) + CbcDecrypt(d, c[..16], c[16..])
  }

  /** The chaining value that a call leaves behind: the last ciphertext block. */
  ghost function CbcChain(iv: Block, c: seq<bv8>): Block
    requires |c| % 16 == 0
  {
    if c == [] then iv else c[|c| - 16..]
  }

  lemma {:induction false} CbcDecryptUndoesEncrypt(e: Block -> Block, d: Block -> Block, iv: Block, p: seq<bv8>)
    requires |p| % 16 == 0 && Undoes(d, e)
    ensures CbcDecrypt(d, iv, CbcEncrypt(e, iv, p)) == p
    decreases |p|
  {
    if p == [] {
    } else {
      var x: Block := XorBytes(p[..16], iv);
      var c0: Block := e(x);
      var rest := CbcEncrypt(e, c0, p[16..]);
      assert CbcEncrypt(e, iv, p) == c0 + rest;
      assert (c0 + rest)[..16] == c0 && (c0 + rest)[16..] == rest;
      XorBytesTwice(p[..16], iv);
      CbcDecryptUndoesEncrypt(e, d, c0, p[16..]);
    }
  }

  lemma {:induction false} CbcEncryptUndoesDecrypt(e: Block -> Block, d: Block -> Block, iv: Block, c: seq<bv8>)
    requires |c| % 16 == 0 && Undoes(e, d)
    ensures CbcEncrypt(e, iv, CbcDecrypt(d, iv, c)) == c
    decreases |c|
  {
    if c == [] {
    } else {
      var p0 := XorBytes(d(c[..16]), iv);
      var rest := CbcDecrypt(d, c[..16], c[16..]);
      assert (p0 + rest)[..16] == p0 && (p0 + rest)[16..] == rest;
      XorBytesTwice(d(c[..16]), iv);
      CbcEncryptUndoesDecrypt(e, d, c[..16], c[16..]);
    }
  }

  function BlockAt(s: seq<bv8>, k: nat): (b: Block)
    requires 16 * k + 16 <= |s|
  {
    s[16 * k..16 * k + 16]
  }

  /** Section 6.2: each ciphertext block is the cipher of the plaintext block added to the ciphertext block before
      it, or to the iv. */
  lemma {:induction false} CbcIsChained(e: Block -> Block, iv: Block, p: seq<bv8>, k: nat)
    requires |p| % 16 == 0 && 16 * k + 16 <= |p|
    ensures
      var c := CbcEncrypt(e, iv, p);
      BlockAt(c, k) == e(XorBytes(BlockAt(p, k), if k == 0 then iv else BlockAt(c, k - 1)))
    decreases k
  {
    hide XorBytes, CbcEncrypt;
    var p0: Block := p[..16];
    var c0: Block := e(XorBytes(p0, iv));
    var rest := CbcEncrypt(e, c0, p[16..]);
    CbcEncryptStep(e, iv, p0, p[16..]);
    assert p == p0 + p[16..];
    FirstBlock(p0, p[16..]);
    FirstBlock(c0, rest);
    if k > 0 {
      CbcIsChained(e, c0, p[16..], k - 1);
      LaterBlock(p0, p[16..], k);
      LaterBlock(c0, rest, k);
      if k > 1 {
        LaterBlock(c0, rest, k - 1);
      }
    }
  }

  lemma FirstBlock(a: Block, s: seq<bv8>)
    ensures BlockAt(a + s, 0) == a
  {}

  lemma LaterBlock(a: Block, s: seq<bv8>, k: nat)
    requires 1 <= k && 16 * k <= |s|
    ensures BlockAt(a + s, k) == BlockAt(s, k - 1)
  {}

  lemma CbcEncryptStep(e: Block -> Block, iv: Block, p0: Block, p: seq<bv8>)
    requires |p| % 16 == 0
    ensures
      var c0: Block := e(XorBytes(p0, iv));
      CbcEncrypt(e, iv, p0 + p) == c0 + CbcEncrypt(e, c0, p)
    ensures CbcEncrypt(e, iv, []) == []
  {
    hide XorBytes;
    assert (p0 + p)[..16] == p0 && (p0 + p)[16..] == p;
  }

  lemma CbcDecryptStep(d: Block -> Block, iv: Block, c0: Block, c: seq<bv8>)
    requires |c| % 16 == 0
    ensures CbcDecrypt(d, iv, c0 + c) == XorBytes(d(c0), iv) + CbcDecrypt(d, c0, c)
    ensures CbcDecrypt(d, iv, []) == []
  {
    hide XorBytes;
    assert (c0 + c)[..16] == c0 && (c0 + c)[16..] == c;
  }

  lemma CbcChainStep(iv: Block, c0: Block, c: seq<bv8>)
    requires |c| % 16 == 0
    ensures CbcChain(iv, c0 + c) == CbcChain(c0, c) && CbcChain(iv, []) == iv
  {}

  /** Appending one block to a message appends one block to its encryption. */
  lemma {:induction false} CbcEncryptSnoc(e: Block -> Block, iv: Block, p: seq<bv8>, q: Block)
    requires |p| % 16 == 0
    ensures CbcEncrypt(e, iv, p + q) ==
            CbcEncrypt(e, iv, p) + e(XorBytes(q, CbcChain(iv, CbcEncrypt(e, iv, p))))
    decreases |p|
  {
    hide XorBytes, CbcEncrypt, CbcChain;
    if p == [] {
      CbcEncryptStep(e, iv, q, []);
      CbcEncryptStep(e, e(XorBytes(q, iv)), q, []);
      CbcChainStep(iv, q, []);
      assert p + q == q && q + [] == q;
    } else {
      var p0: Block := p[..16];
      var r := p[16..];
      var c0: Block := e(XorBytes(p0, iv));
      var rest := CbcEncrypt(e, c0, r);
      CbcEncryptStep(e, iv, p0, r);
      CbcChainStep(iv, c0, rest);
      assert p == p0 + r;
      var y := e(XorBytes(q, CbcChain(c0, rest)));
      calc {
        CbcEncrypt(e, iv, p + q);
        { AppendAssoc(p0, r, q); CbcEncryptStep(e, iv, p0, r + q); }
        c0 + CbcEncrypt(e, c0, r + q);
        { CbcEncryptSnoc(e, c0, r, q); }
        c0 + (rest + y);
        { AppendAssoc(c0, rest, y); }
        (c0 + rest) + y;
        CbcEncrypt(e, iv, p) + y;
      }
    }
  }

  lemma {:induction false} CbcDecryptSnoc(d: Block -> Block, iv: Block, c: seq<bv8>, q: Block)
    requires |c| % 16 == 0
    ensures CbcDecrypt(d, iv, c + q) == CbcDecrypt(d, iv, c) + XorBytes(d(q), CbcChain(iv, c))
    decreases |c|
  {
    hide XorBytes, CbcDecrypt, CbcChain;
    if c == [] {
      CbcDecryptStep(d, iv, q, []);
      CbcDecryptStep(d, q, q, []);
      CbcChainStep(iv, q, []);
      assert c + q == q && q + [] == q;
    } else {
      var c0: Block := c[..16];
      var r := c[16..];
      CbcChainStep(iv, c0, r);
      assert c == c0 + r;
      var x, y := XorBytes(d(c0), iv), XorBytes(d(q), CbcChain(c0, r));
      calc {
        CbcDecrypt(d, iv, c + q);
        { AppendAssoc(c0, r, q); CbcDecryptStep(d, iv, c0, r + q); }
        x + CbcDecrypt(d, c0, r + q);
        { CbcDecryptSnoc(d, c0, r, q); }
        x + (CbcDecrypt(d, c0, r) + y);
        { AppendAssoc(x, CbcDecrypt(d, c0, r), y); }
        (x + CbcDecrypt(d, c0, r)) + y;
        { CbcDecryptStep(d, iv, c0, r); }
        CbcDecrypt(d, iv, c) + y;
      }
    }
  }

  // ----- CFB128, one byte at a time

  /** `iv` and `*iv_off` of aes_crypt_cfb128. */
  datatype CfbState = CfbState(iv: Block, n: nat)

  ghost function CfbReady(e: Block -> Block, s: CfbState): Block {
    if s.n == 0 then e(s.iv) else s.iv
  }

  ghost function CfbByte(e: Block -> Block, s: CfbState, x: bv8): bv8
    requires s.n < 16
  {
    Xor(x, CfbReady(e, s)[s.n])
  }

  /** The state after a byte whose ciphertext is `c`. */
  ghost function CfbNext(e: Block -> Block, s: CfbState, c: bv8): (s': CfbState)
    requires s.n < 16
    ensures s'.n < 16
  {
    CfbState(CfbReady(e, s)[s.n := c], (s.n + 1) % 16)
  }

  ghost function CfbEncrypt(e: Block -> Block, s: CfbState, p: seq<bv8>): (c: seq<bv8>)
    requires s.n < 16
    ensures |c| == |p|
    decreases |p|
  {
    if p == [] then []
    else
      var c0 := CfbByte(e, s, p[0]);
      [c0] + CfbEncrypt(e, CfbNext(e, s, c0), p[1..])
  }

  ghost function CfbDecrypt(e: Block -> Block, s: CfbState, c: seq<bv8>): (p: seq<bv8>)
    requires s.n < 16
    ensures |p| == |c|
    decreases |c|
  {
    if c == [] then []
    else [CfbByte(e, s, c[0])] + CfbDecrypt(e, CfbNext(e, s, c[0]), c[1..])
  }

  /** The state after all of the ciphertext `c`, on either side. */
  ghost function CfbAfter(e: Block -> Block, s: CfbState, c: seq<bv8>): (s': CfbState)
    requires s.n < 16
    ensures s'.n < 16
    decreases |c|
  {
    if c == [] then s else CfbAfter(e, CfbNext(e, s, c[0]), c[1..])
  }

  lemma {:induction false} CfbDecryptUndoesEncrypt(e: Block -> Block, s: CfbState, p: seq<bv8>)
    requires s.n < 16
    ensures CfbDecrypt(e, s, CfbEncrypt(e, s, p)) == p
    ensures CfbEncrypt(e, s, CfbDecrypt(e, s, p)) == p
    decreases |p|
  {
    hide Xor;
    if p == [] {
    } else {
      var k := CfbReady(e, s)[s.n];
      XorCancel(p[0], k);
      var c := CfbEncrypt(e, s, p);
      assert c[1..] == CfbEncrypt(e, CfbNext(e, s, c[0]), p[1..]);
      CfbDecryptUndoesEncrypt(e, CfbNext(e, s, c[0]), p[1..]);
      var d := CfbDecrypt(e, s, p);
      assert d[1..] == CfbDecrypt(e, CfbNext(e, s, p[0]), p[1..]);
      CfbDecryptUndoesEncrypt(e, CfbNext(e, s, p[0]), p[1..]);
    }
  }

  lemma {:induction false} CfbEncryptAppend(e: Block -> Block, s: CfbState, p: seq<bv8>, q: seq<bv8>)
    requires s.n < 16
    ensures
      var c := CfbEncrypt(e, s, p);
      CfbEncrypt(e, s, p + q) == c + CfbEncrypt(e, CfbAfter(e, s, c), q)
    decreases |p|
  {
    hide CfbByte, CfbNext;
    if p == [] {
      assert p + q == q;
    } else {
      var c0 := CfbByte(e, s, p[0]);
      assert (p + q)[1..] == p[1..] + q;
      CfbEncryptAppend(e, CfbNext(e, s, c0), p[1..], q);
      assert CfbEncrypt(e, s, p)[1..] == CfbEncrypt(e, CfbNext(e, s, c0), p[1..]);
    }
  }

  lemma {:induction false} CfbDecryptAppend(e: Block -> Block, s: CfbState, c: seq<bv8>, d: seq<bv8>)
    requires s.n < 16
    ensures CfbDecrypt(e, s, c + d) == CfbDecrypt(e, s, c) + CfbDecrypt(e, CfbAfter(e, s, c), d)
    ensures CfbAfter(e, s, c + d) == CfbAfter(e, CfbAfter(e, s, c), d)
    decreases |c|
  {
    hide CfbByte, CfbNext;
    if c == [] {
      assert c + d == d;
    } else {
      assert (c + d)[1..] == c[1..] + d;
      CfbDecryptAppend(e, CfbNext(e, s, c[0]), c[1..], d);
    }
  }

  // ----- streams cut into calls

  function Flatten(chunks: seq<seq<bv8>>): seq<bv8> {
    if chunks == [] then [] else chunks[0] + Flatten(chunks[1..])
  }

  /** A sequence of aes_crypt_cfb128 calls in encryption mode that pass `iv` and `iv_off` along. */
  ghost function CfbEncryptCalls(e: Block -> Block, s: CfbState, chunks: seq<seq<bv8>>): seq<bv8>
    requires s.n < 16
    decreases |chunks|
  {
    if chunks == [] then []
    else
      var c := CfbEncrypt(e, s, chunks[0]);
      c + CfbEncryptCalls(e, CfbAfter(e, s, c), chunks[1..])
  }

  ghost function CfbDecryptCalls(e: Block -> Block, s: CfbState, chunks: seq<seq<bv8>>): seq<bv8>
    requires s.n < 16
    decreases |chunks|
  {
    if chunks == [] then []
    else CfbDecrypt(e, s, chunks[0]) + CfbDecryptCalls(e, CfbAfter(e, s, chunks[0]), chunks[1..])
  }

  lemma {:induction false} CfbCallsAreOne(e: Block -> Block, s: CfbState, chunks: seq<seq<bv8>>)
    requires s.n < 16
    ensures CfbEncryptCalls(e, s, chunks) == CfbEncrypt(e, s, Flatten(chunks))
    ensures CfbDecryptCalls(e, s, chunks) == CfbDecrypt(e, s, Flatten(chunks))
    decreases |chunks|
  {
    if chunks == [] {
    } else {
      var c := CfbEncrypt(e, s, chunks[0]);
      CfbEncryptAppend(e, s, chunks[0], Flatten(chunks[1..]));
      CfbCallsAreOne(e, CfbAfter(e, s, c), chunks[1..]);
      CfbDecryptAppend(e, s, chunks[0], Flatten(chunks[1..]));
      CfbCallsAreOne(e, CfbAfter(e, s, chunks[0]), chunks[1..]);
    }
  }

  /** Decrypting undoes encrypting even when the two sides cut the stream at different points. */
  lemma CfbAnyCuts(e: Block -> Block, s: CfbState, sent: seq<seq<bv8>>, received: seq<seq<bv8>>)
    requires s.n < 16 && Flatten(received) == CfbEncryptCalls(e, s, sent)
    ensures CfbDecryptCalls(e, s, received) == Flatten(sent)
  {
    CfbCallsAreOne(e, s, sent);
    CfbCallsAreOne(e, s, received);
    CfbDecryptUndoesEncrypt(e, s, Flatten(sent));
  }

  /** Section 6.3: each 16-byte segment is masked with the encryption of the previous ciphertext segment. */
  ghost function CfbSegments(e: Block -> Block, iv: Block, p: seq<bv8>): (c: seq<bv8>)
    ensures |c| == |p|
    decreases |p|
  {
    if |p| <= 16 then XorBytes(p, e(iv))
    else
      var c: Block := XorBytes(p[..16], e(iv));
      c + CfbSegments(e, c, p[16..])
  }

  /** The state inside a segment: ciphertext so far, then what is left of the keystream block `k`. */
  ghost function CfbInside(iv: Block, k: Block, done: seq<bv8>): CfbState
    requires |done| <= 16
  {
    if done == [] then CfbState(iv, 0) else CfbState(done + k[|done|..], |done| % 16)
  }

  lemma CfbInsideStep(e: Block -> Block, iv: Block, k: Block, done: seq<bv8>, x: bv8, c: bv8)
    requires |done| < 16 && k == e(iv)
    ensures
      var s := CfbInside(iv, k, done);
      CfbByte(e, s, x) == Xor(x, k[|done|]) && CfbNext(e, s, c) == CfbInside(iv, k, done + [c])
  {
    hide Xor;
    var n := |done|;
    assert (done + k[n..])[n := c] == (done + [c]) + k[n + 1..];
    if n == 0 {
      assert done == [] && k[n := c] == (done + [c]) + k[n + 1..];
    }
  }

  /** Up to the end of the segment, the byte machine masks with the bytes of one keystream block. */
  lemma {:induction false} CfbWithinSegment(e: Block -> Block, iv: Block, k: Block, done: seq<bv8>, p: seq<bv8>)
    requires |done| + |p| <= 16 && k == e(iv)
    ensures
      var s := CfbInside(iv, k, done);
      var c := XorBytes(p, k[|done|..]);
      CfbEncrypt(e, s, p) == c && CfbAfter(e, s, c) == CfbInside(iv, k, done + c)
    decreases |p|
  {
    hide Xor, XorBytes, CfbByte, CfbNext, CfbInside;
    var s := CfbInside(iv, k, done);
    var c := XorBytes(p, k[|done|..]);
    if p == [] {
      assert done + c == done;
    } else {
      var ks := k[|done|..];
      var c0 := Xor(p[0], k[|done|]);
      CfbInsideStep(e, iv, k, done, p[0], c0);
      CfbWithinSegment(e, iv, k, done + [c0], p[1..]);
      var c' := XorBytes(p[1..], ks[1..]);
      assert ks[1..] == k[|done + [c0]|..];
      XorBytesCons(p, ks);
      AppendAssoc(done, [c0], c');
      assert c[0] == c0 && c[1..] == c';
    }
  }

  /** A whole segment, from offset 0 to offset 0. */
  lemma CfbWholeSegment(e: Block -> Block, iv: Block, p: Block)
    ensures
      var s, c := CfbState(iv, 0), XorBytes(p, e(iv));
      CfbEncrypt(e, s, p) == c && CfbAfter(e, s, c) == CfbState(c, 0)
  {
    hide Xor, XorBytes, CfbEncrypt, CfbAfter;
    var k := e(iv);
    assert k[0..] == k;
    CfbWithinSegment(e, iv, k, [], p);
    var c := XorBytes(p, k);
    assert [] + c == c && c + k[16..] == c;
  }

  lemma {:induction false} CfbIsSegments(e: Block -> Block, iv: Block, p: seq<bv8>)
    ensures CfbEncrypt(e, CfbState(iv, 0), p) == CfbSegments(e, iv, p)
    decreases |p|
  {
    hide Xor, XorBytes, CfbEncrypt, CfbAfter;
    if |p| <= 16 {
      assert e(iv)[0..] == e(iv);
      CfbWithinSegment(e, iv, e(iv), [], p);
    } else {
      assert p == p[..16] + p[16..];
      CfbWholeSegment(e, iv, p[..16]);
      CfbEncryptAppend(e, CfbState(iv, 0), p[..16], p[16..]);
      CfbIsSegments(e, XorBytes(p[..16], e(iv)), p[16..]);
    }
  }

  // ----- CTR: the counter

  /** The standard incrementing function of section B.1, as carries from the last byte upwards. */
  function Increment(s: seq<bv8>): (r: seq<bv8>)
    ensures |r| == |s|
  {
    if s == [] then []
    else
      var last := s[|s| - 1] + 1;
      (if last == 0 then Increment(s[..|s| - 1]) else s[..|s| - 1]) + [last]
  }

  lemma ByteSuccessor(b: bv8)
    ensures (b + 1) as int == if b as int == 255 then 0 else b as int + 1
    ensures b + 1 == 0 <==> b as int == 255
  {}

  /** Incrementing adds one modulo 256^n. */
  lemma {:induction false} IncrementAddsOne(s: seq<bv8>)
    ensures BeValue(Increment(s)) == if BeValue(s) + 1 == Pow256(|s|) then 0 else BeValue(s) + 1
  {
    hide BeValue, Increment, Pow256;
    if s == [] {
      NoDigits();
    } else {
      var n := |s| - 1;
      var h, b := s[..n], s[n];
      IncrementAddsOne(h);
      BeValueBound(h);
      ByteSuccessor(b);
      IncrementStep(s, n);
      assert h + [b] == s;
      LastDigit(h, b);
      LastDigit(Increment(h), b + 1);
      LastDigit(h, b + 1);
    }
  }

  lemma NoDigits()
    ensures BeValue([]) == 0 && Pow256(0) == 1 && Increment([]) == []
  {}

  lemma LastDigit(h: seq<bv8>, b: bv8)
    ensures BeValue(h + [b]) == 256 * BeValue(h) + b as int
    ensures Pow256(|h| + 1) == 256 * Pow256(|h|)
    ensures 0 <= b as int < 256
  {
    assert (h + [b])[..|h|] == h;
  }

  lemma IncrementStep(c: seq<bv8>, n: nat)
    requires |c| == n + 1
    ensures Increment(c) == (if c[n] + 1 == 0 then Increment(c[..n]) else c[..n]) + [c[n] + 1]
  {}

  /** The counter block `k` blocks after `c`. */
  function CounterAt(c: Block, k: nat): Block {
    if k == 0 then c else Increment(CounterAt(c, k - 1))
  }

  lemma {:induction false} CounterAtValue(c: Block, k: nat)
    ensures BeValue(CounterAt(c, k)) == (BeValue(c) + k) % Pow256(16)
  {
    hide Pow256, BeValue, Increment;
    var v, m := BeValue(c), Pow256(16);
    if k == 0 {
      BeValueBound(c);
      ModUnique(v, 0, v, m);
    } else {
      CounterAtValue(c, k - 1);
      IncrementAddsOne(CounterAt(c, k - 1));
      ModSuccessor(v + k - 1, m);
    }
  }

  lemma ModSuccessor(v: nat, m: nat)
    requires m > 0
    ensures (v + 1) % m == if v % m + 1 == m then 0 else v % m + 1
  {
    var q, r := v / m, v % m;
    assert v == q * m + r;
    if r + 1 == m {
      assert v + 1 == (q + 1) * m;
      ModUnique(v + 1, q + 1, 0, m);
    } else {
      ModUnique(v + 1, q, r + 1, m);
    }
  }

  // ----- CTR, one byte at a time

  /** `*nc_off`, `nonce_counter` and `stream_block` of aes_crypt_ctr. */
  datatype CtrState = CtrState(n: nat, counter: Block, stream: Block)

  ghost function CtrReady(e: Block -> Block, s: CtrState): CtrState {
    if s.n == 0 then CtrState(0, Increment(s.counter), e(s.counter)) else s
  }

  ghost function CtrNext(e: Block -> Block, s: CtrState): (s': CtrState)
    requires s.n < 16
    ensures s'.n < 16
  {
    CtrReady(e, s).(n := (s.n + 1) % 16)
  }

  ghost function CtrCrypt(e: Block -> Block, s: CtrState, x: seq<bv8>): (y: seq<bv8>)
    requires s.n < 16
    ensures |y| == |x|
    decreases |x|
  {
    if x == [] then []
    else [Xor(x[0], CtrReady(e, s).stream[s.n])] + CtrCrypt(e, CtrNext(e, s), x[1..])
  }

  ghost function CtrAfter(e: Block -> Block, s: CtrState, len: nat): (s': CtrState)
    requires s.n < 16
    ensures s'.n < 16
    decreases len
  {
    if len == 0 then s else CtrAfter(e, CtrNext(e, s), len - 1)
  }

  /** Applying CTR twice from equal starting states restores the input. */
  lemma {:induction false} CtrTwice(e: Block -> Block, s: CtrState, x: seq<bv8>)
    requires s.n < 16
    ensures CtrCrypt(e, s, CtrCrypt(e, s, x)) == x
    decreases |x|
  {
    hide Xor;
    if x == [] {
    } else {
      XorCancel(x[0], CtrReady(e, s).stream[s.n]);
      assert CtrCrypt(e, s, x)[1..] == CtrCrypt(e, CtrNext(e, s), x[1..]);
      CtrTwice(e, CtrNext(e, s), x[1..]);
    }
  }

  lemma {:induction false} CtrAppend(e: Block -> Block, s: CtrState, x: seq<bv8>, y: seq<bv8>)
    requires s.n < 16
    ensures CtrCrypt(e, s, x + y) == CtrCrypt(e, s, x) + CtrCrypt(e, CtrAfter(e, s, |x|), y)
    ensures CtrAfter(e, s, |x| + |y|) == CtrAfter(e, CtrAfter(e, s, |x|), |y|)
    decreases |x|
  {
    hide CtrNext, CtrReady, Xor;
    if x == [] {
      assert x + y == y;
    } else {
      assert (x + y)[1..] == x[1..] + y;
      CtrAppend(e, CtrNext(e, s), x[1..], y);
    }
  }

  /** A sequence of aes_crypt_ctr calls that pass the offset, counter and stream block along. */
  ghost function CtrCalls(e: Block -> Block, s: CtrState, chunks: seq<seq<bv8>>): seq<bv8>
    requires s.n < 16
    decreases |chunks|
  {
    if chunks == [] then []
    else CtrCrypt(e, s, chunks[0]) + CtrCalls(e, CtrAfter(e, s, |chunks[0]|), chunks[1..])
  }

  /** However a stream is cut into calls, the bytes are the same. */
  lemma {:induction false} CtrCallsAreOne(e: Block -> Block, s: CtrState, chunks: seq<seq<bv8>>)
    requires s.n < 16
    ensures CtrCalls(e, s, chunks) == CtrCrypt(e, s, Flatten(chunks))
    decreases |chunks|
  {
    if chunks == [] {
    } else {
      CtrAppend(e, s, chunks[0], Flatten(chunks[1..]));
      CtrCallsAreOne(e, CtrAfter(e, s, |chunks[0]|), chunks[1..]);
    }
  }

  /** Where the machine stands after `j` bytes of a stream that starts at a block boundary. */
  lemma {:induction false} CtrPosition(e: Block -> Block, c: Block, stream: Block, j: nat)
    ensures
      var s := CtrAfter(e, CtrState(0, c, stream), j);
      && s.n == j % 16
      && CtrReady(e, s).stream == e(CounterAt(c, j / 16))
      && CtrReady(e, s).counter == CounterAt(c, j / 16 + 1)
  {
    if j > 0 {
      var s0 := CtrState(0, c, stream);
      var s := CtrAfter(e, s0, j - 1);
      CtrPosition(e, c, stream, j - 1);
      CtrAfterLast(e, s0, j - 1);
      assert CtrAfter(e, s0, j) == CtrNext(e, s);
      NextPosition(j);
    }
  }

  lemma NextPosition(j: nat)
    requires j > 0
    ensures j % 16 == ((j - 1) % 16 + 1) % 16
    ensures j / 16 == if j % 16 == 0 then (j - 1) / 16 + 1 else (j - 1) / 16
  {}

  lemma {:induction false} CtrAfterLast(e: Block -> Block, s: CtrState, len: nat)
    requires s.n < 16
    ensures CtrAfter(e, s, len + 1) == CtrNext(e, CtrAfter(e, s, len))
    decreases len
  {
    hide CtrNext;
    if len > 0 {
      CtrAfterLast(e, CtrNext(e, s), len - 1);
    }
  }

  /** Section 6.5: byte `j` of the output is byte `j` of the input masked with byte `j % 16` of the
      encryption of counter block `j / 16`, whose value is the initial counter plus `j / 16`. */
  lemma CtrIsCounterMode(e: Block -> Block, c: Block, stream: Block, x: seq<bv8>, j: nat)
    requires j < |x|
    ensures
      var t := CounterAt(c, j / 16);
      && CtrCrypt(e, CtrState(0, c, stream), x)[j] == Xor(x[j], e(t)[j % 16])
      && BeValue(t) == (BeValue(c) + j / 16) % Pow256(16)
  {
    hide Xor, CtrReady, CtrNext, CtrCrypt, CtrAfter, BeValue, Pow256, CounterAt;
    var s0 := CtrState(0, c, stream);
    assert x == x[..j] + x[j..];
    CtrAppend(e, s0, x[..j], x[j..]);
    CtrPosition(e, c, stream, j);
    CounterAtValue(c, j / 16);
    CtrHead(e, CtrAfter(e, s0, j), x[j..]);
  }

  lemma CtrHead(e: Block -> Block, s: CtrState, x: seq<bv8>)
    requires s.n < 16 && x != []
    ensures CtrCrypt(e, s, x)[0] == Xor(x[0], CtrReady(e, s).stream[s.n])
  {
    hide Xor, CtrReady, CtrNext;
  }
}
