/** The MSB-first CRC-32 with polynomial 0x04C11DB7: the table-driven C and Java versions, the
    bit-serial definition, and detection of burst errors. */
module Crc32 {
  import opened Bytes

  const POLYNOMIAL: bv32 := 0x04C11DB7
  const TOP: bv32 := 0x80000000

  // ----- the bit-serial definition

  /** One bit enters at the top of the register. */
  function BitStep(s: bv32, bit: bool): bv32 {
    Xor32(s << 1, Feedback(s, bit))
  }

  function Feedback(s: bv32, bit: bool): bv32 {
    if (s & 0x80000000 != 0) != bit then 0x04C11DB7 else 0
  }

  function CrcBits(s: bv32, bits: seq<bool>): bv32
    decreases |bits|
  {
    if bits == [] then s else CrcBits(BitStep(s, bits[0]), bits[1..])
  }

  function Bit(b: bv8, i: nat): bool
    requires i < 8
  {
    b & (0x80 >> i) != 0
  }

  function ByteBits(b: bv8): (r: seq<bool>)
    ensures |r| == 8
  {
    [Bit(b, 0), Bit(b, 1), Bit(b, 2), Bit(b, 3), Bit(b, 4), Bit(b, 5), Bit(b, 6), Bit(b, 7)]
  }

  /** The bits of a message, most significant bit of each byte first. */
  function Bits(m: seq<bv8>): (r: seq<bool>)
    ensures |r| == 8 * |m|
  {
    if m == [] then [] else ByteBits(m[0]) + Bits(m[1..])
  }

  /** Initial register and final complement all ones. */
  function Crc(m: seq<bv8>): bv32 {
    !CrcBits(0xFFFFFFFF, Bits(m))
  }

  lemma {:induction false} CrcBitsAppend(s: bv32, x: seq<bool>, y: seq<bool>)
    ensures CrcBits(s, x + y) == CrcBits(CrcBits(s, x), y)
    decreases |x|
  {
    hide BitStep;
    if x == [] {
      assert x + y == y;
    } else {
      assert (x + y)[1..] == x[1..] + y;
      CrcBitsAppend(BitStep(s, x[0]), x[1..], y);
    }
  }

  lemma {:induction false} BitsAppend(x: seq<bv8>, y: seq<bv8>)
    ensures Bits(x + y) == Bits(x) + Bits(y)
  {
    hide ByteBits;
    if x == [] {
      assert x + y == y;
    } else {
      assert (x + y)[1..] == x[1..] + y;
      BitsAppend(x[1..], y);
    }
  }

  lemma ByteBitsInjective(a: bv8, b: bv8)
    requires ByteBits(a) == ByteBits(b)
    ensures a == b
  {
    assert Bit(a, 0) == Bit(b, 0) by { assert ByteBits(a)[0] == ByteBits(b)[0]; }
    assert Bit(a, 1) == Bit(b, 1) by { assert ByteBits(a)[1] == ByteBits(b)[1]; }
    assert Bit(a, 2) == Bit(b, 2) by { assert ByteBits(a)[2] == ByteBits(b)[2]; }
    assert Bit(a, 3) == Bit(b, 3) by { assert ByteBits(a)[3] == ByteBits(b)[3]; }
    assert Bit(a, 4) == Bit(b, 4) by { assert ByteBits(a)[4] == ByteBits(b)[4]; }
    assert Bit(a, 5) == Bit(b, 5) by { assert ByteBits(a)[5] == ByteBits(b)[5]; }
    assert Bit(a, 6) == Bit(b, 6) by { assert ByteBits(a)[6] == ByteBits(b)[6]; }
    assert Bit(a, 7) == Bit(b, 7) by { assert ByteBits(a)[7] == ByteBits(b)[7]; }
  }

  lemma {:induction false} BitsInjective(x: seq<bv8>, y: seq<bv8>)
    requires |x| == |y| && Bits(x) == Bits(y)
    ensures x == y
  {
    hide ByteBits;
    if x != [] {
      assert ByteBits(x[0]) == Bits(x)[..8] && ByteBits(y[0]) == Bits(y)[..8];
      assert Bits(x[1..]) == Bits(x)[8..] && Bits(y[1..]) == Bits(y)[8..];
      ByteBitsInjective(x[0], y[0]);
      BitsInjective(x[1..], y[1..]);
      assert x == [x[0]] + x[1..] && y == [y[0]] + y[1..];
    }
  }

  // ----- burst errors

  /** The step is a bijection of the register for every incoming bit. */
  lemma BitStepInjective(s: bv32, t: bv32, bit: bool)
    requires BitStep(s, bit) == BitStep(t, bit)
    ensures s == t
  {
    hide Xor32, Feedback;
    var fs, ft := Feedback(s, bit), Feedback(t, bit);
    FeedbackValues(s, t, bit, bit);
    if fs == ft {
      XorSame(s << 1, t << 1, fs);
      ShiftAndTop(s, t);
    } else {
      EvenPlusOdd(s, t);
      EvenPlusOdd(t, s);
    }
  }

  lemma FeedbackValues(s: bv32, t: bv32, x: bool, y: bool)
    ensures Feedback(s, x) == 0 || Feedback(s, x) == 0x04C11DB7
    ensures Feedback(t, y) == 0 || Feedback(t, y) == 0x04C11DB7
    ensures x == y && Feedback(s, x) == Feedback(t, y) ==> (s & 0x80000000 != 0) == (t & 0x80000000 != 0)
  {}

  lemma XorSame(a: bv32, b: bv32, p: bv32)
    requires Xor32(a, p) == Xor32(b, p)
    ensures a == b
  {
    hide Xor32;
    Xor32Laws(a, p, p);
    Xor32Laws(b, p, p);
    Xor32Laws(p, p, p);
  }

  lemma ShiftAndTop(s: bv32, t: bv32)
    requires s << 1 == t << 1 && (s & 0x80000000 != 0) == (t & 0x80000000 != 0)
    ensures s == t
  {}

  /** Feedback makes the register odd, no feedback leaves it even. */
  lemma EvenPlusOdd(s: bv32, t: bv32)
    ensures Xor32(s << 1, 0x04C11DB7) != Xor32(t << 1, 0)
  {
    assert ((s << 1) ^ 0x04C11DB7) & 1 == 1;
    assert ((t << 1) ^ 0) & 1 == 0;
  }

  lemma {:induction false} DifferenceStays(s: bv32, t: bv32, x: seq<bool>)
    requires s != t
    ensures CrcBits(s, x) != CrcBits(t, x)
    decreases |x|
  {
    hide BitStep;
    if x != [] {
      if BitStep(s, x[0]) == BitStep(t, x[0]) {
        BitStepInjective(s, t, x[0]);
      }
      DifferenceStays(BitStep(s, x[0]), BitStep(t, x[0]), x[1..]);
    }
  }

  function And32(a: bv32, b: bv32): bv32 { a & b }

  /** Shifts a one in at the bottom. */
  function Up(a: bv32): bv32 { (a << 1) | 1 }

  lemma UpAnd(a: bv32, b: bv32)
    ensures And32(Up(a), Up(b)) == Up(And32(a, b))
  {
    calc {
      And32(Up(a), Up(b));
      ((a << 1) | 1) & ((b << 1) | 1);
      ((a & b) << 1) | 1;
      Up(And32(a, b));
    }
  }

  lemma AndAssoc(a: bv32, b: bv32, c: bv32)
    ensures And32(And32(a, b), c) == And32(a, And32(b, c))
  {
    assert (a & b) & c == a & (b & c);
  }

  /** The low `m` bits. */
  function Mask(m: nat): bv32 {
    if m == 0 then 0 else Up(Mask(m - 1))
  }

  /** The registers differ in one of their low `m` bits. */
  predicate LowDifference(s: bv32, t: bv32, m: nat) { And32(Xor32(s, t), Mask(m)) != 0 }

  lemma {:induction false} MaskGrows(m: nat)
    ensures And32(Mask(m), Mask(m + 1)) == Mask(m)
  {
    if m == 0 {
      assert And32(0, Mask(1)) == 0;
    } else {
      hide And32, Up;
      MaskGrows(m - 1);
      UpAnd(Mask(m - 1), Mask(m));
    }
  }

  lemma {:induction false} MaskWithin(m: nat)
    requires m <= 31
    ensures And32(Mask(m), Mask(31)) == Mask(m)
    decreases 31 - m
  {
    if m == 31 {
      assert And32(Mask(31), Mask(31)) == Mask(31);
      hide And32, Mask;
    } else {
      hide And32, Mask;
      MaskWithin(m + 1);
      MaskGrows(m);
      AndAssoc(Mask(m), Mask(m + 1), Mask(31));
    }
  }

  lemma MaskBelowTop(m: nat)
    requires m <= 31
    ensures And32(Mask(m), 0x7FFFFFFF) == Mask(m)
  {
    assert Mask(8) == 0xFF;
    assert Mask(16) == 0xFFFF;
    assert Mask(24) == 0xFFFFFF;
    assert Mask(31) == 0x7FFFFFFF;
    MaskWithin(m);
    hide Mask, And32;
  }

  /** A difference among the low `m` bits moves up one place, or a feedback sets the lowest bit. */
  lemma LowDifferenceMoves(s: bv32, t: bv32, x: bool, y: bool, m: nat)
    requires 1 <= m < 32 && LowDifference(s, t, m)
    ensures LowDifference(BitStep(s, x), BitStep(t, y), m + 1)
  {
    hide Xor32, Feedback, And32, Up;
    var fs, ft := Feedback(s, x), Feedback(t, y);
    var d, k := Xor32(s, t), Mask(m);
    MaskBelowTop(m);
    assert Mask(m + 1) == Up(k);
    hide Mask;
    FeedbackValues(s, t, x, y);
    Xor32Swap(s << 1, fs, t << 1, ft);
    ShiftXor32(s, t);
    Xor32Laws(fs, ft, 0);
    Xor32Laws(fs, fs, 0);
    Xor32Laws(0x04C11DB7, 0, 0);
    Xor32Laws(d << 1, 0, 0);
    MovedUp(d, k);
    LowestSet(d, k);
  }

  lemma Xor32Swap(a: bv32, b: bv32, c: bv32, d: bv32)
    ensures Xor32(Xor32(a, b), Xor32(c, d)) == Xor32(Xor32(a, c), Xor32(b, d))
  {
    hide Xor32;
    Xor32Laws(a, b, Xor32(c, d));
    Xor32Laws(b, c, d);
    Xor32Laws(c, b, d);
    Xor32Laws(a, c, Xor32(b, d));
  }

  lemma ShiftXor32(s: bv32, t: bv32)
    ensures Xor32(s, t) << 1 == Xor32(s << 1, t << 1)
  {
    calc {
      Xor32(s, t) << 1;
      (s ^ t) << 1;
      (s << 1) ^ (t << 1);
      Xor32(s << 1, t << 1);
    }
  }

  lemma MovedUp(d: bv32, k: bv32)
    requires And32(k, 0x7FFFFFFF) == k && And32(d, k) != 0
    ensures And32(d << 1, Up(k)) != 0
  {
    hide And32, Up;
    AndAssoc(d, k, 0x7FFFFFFF);
    ShiftedAnd(d, k);
    assert 0 as bv32 >> 1 == 0;
  }

  lemma ShiftedAnd(d: bv32, k: bv32)
    ensures And32(d << 1, Up(k)) >> 1 == And32(And32(d, k), 0x7FFFFFFF)
  {
    calc {
      And32(d << 1, Up(k)) >> 1;
      ((d << 1) & ((k << 1) | 1)) >> 1;
      (d & k) & 0x7FFFFFFF;
      And32(And32(d, k), 0x7FFFFFFF);
    }
  }

  lemma LowestSet(d: bv32, k: bv32)
    ensures And32(Xor32(d << 1, 0x04C11DB7), Up(k)) != 0
  {
    assert (((d << 1) ^ 0x04C11DB7) & ((k << 1) | 1)) & 1 == 1;
  }

  /** Once the registers differ in a low bit, no choice of the next bits can make them meet before
      32 bits have gone in. */
  lemma {:induction false} LowDifferenceLasts(s: bv32, t: bv32, x: seq<bool>, y: seq<bool>, m: nat)
    requires |x| == |y| && 1 <= m && m + |x| <= 32 && LowDifference(s, t, m)
    ensures CrcBits(s, x) != CrcBits(t, y)
    decreases |x|
  {
    hide BitStep;
    if x == [] {
      Xor32Laws(s, s, s);
      assert And32(0, Mask(m)) == 0;
    } else {
      LowDifferenceMoves(s, t, x[0], y[0], m);
      hide LowDifference;
      LowDifferenceLasts(BitStep(s, x[0]), BitStep(t, y[0]), x[1..], y[1..], m + 1);
    }
  }

  lemma FirstDifference(s: bv32, x: bool, y: bool)
    requires x != y
    ensures LowDifference(BitStep(s, x), BitStep(s, y), 1)
  {
    assert Mask(1) == 1 && And32(0x04C11DB7, 1) == 1;
    var fx, fy := Feedback(s, x), Feedback(s, y);
    assert (fx == 0 && fy == 0x04C11DB7) || (fx == 0x04C11DB7 && fy == 0);
    hide Xor32, Feedback, And32, Mask;
    Xor32Swap(s << 1, fx, s << 1, fy);
    Xor32Laws(s << 1, 0, 0);
    Xor32Laws(0, 0x04C11DB7, 0);
    Xor32Laws(0x04C11DB7, 0, 0);
    assert Xor32(BitStep(s, x), BitStep(s, y)) == 0x04C11DB7;
  }

  lemma {:induction false} WindowDetected(s: bv32, x: seq<bool>, y: seq<bool>)
    requires |x| == |y| <= 32 && x != y
    ensures CrcBits(s, x) != CrcBits(s, y)
    decreases |x|
  {
    hide BitStep, LowDifference;
    assert x == [x[0]] + x[1..] && y == [y[0]] + y[1..];
    if x[0] == y[0] {
      WindowDetected(BitStep(s, x[0]), x[1..], y[1..]);
    } else {
      FirstDifference(s, x[0], y[0]);
      LowDifferenceLasts(BitStep(s, x[0]), BitStep(s, y[0]), x[1..], y[1..], 1);
    }
  }

  /** Bit strings that differ, and only inside a window of 32 consecutive bits, leave different registers. */
  lemma BurstDetected(s: bv32, p: seq<bool>, x: seq<bool>, y: seq<bool>, q: seq<bool>)
    requires |x| == |y| <= 32 && x != y
    ensures CrcBits(s, p + x + q) != CrcBits(s, p + y + q)
  {
    CrcBitsAppend(s, p + x, q);
    CrcBitsAppend(s, p + y, q);
    CrcBitsAppend(s, p, x);
    CrcBitsAppend(s, p, y);
    var r := CrcBits(s, p);
    WindowDetected(r, x, y);
    DifferenceStays(CrcBits(r, x), CrcBits(r, y), q);
  }

  /** Messages that differ inside a window of four consecutive bytes have different CRCs. */
  lemma FourBytesDetected(p: seq<bv8>, x: seq<bv8>, y: seq<bv8>, q: seq<bv8>)
    requires |x| == |y| <= 4 && x != y
    ensures Crc(p + x + q) != Crc(p + y + q)
  {
    hide Bits, CrcBits;
    BitsAppend(p + x, q);
    BitsAppend(p, x);
    BitsAppend(p + y, q);
    BitsAppend(p, y);
    if Bits(x) == Bits(y) {
      BitsInjective(x, y);
    }
    BurstDetected(0xFFFFFFFF, Bits(p), Bits(x), Bits(y), Bits(q));
    ComplementInjective(CrcBits(0xFFFFFFFF, Bits(p + x + q)), CrcBits(0xFFFFFFFF, Bits(p + y + q)));
  }

  lemma ComplementInjective(a: bv32, b: bv32)
    requires a != b
    ensures !a != !b
  {
    assert !!a == a && !!b == b;
  }

  // ----- the table

  /** `n` steps with zero bits. */
  function ZeroSteps(n: nat, s: bv32): bv32
    decreases n
  {
    if n == 0 then s else ZeroSteps(n - 1, BitStep(s, false))
  }

  lemma FeedbackXor(s: bv32, t: bv32, bit: bool)
    requires bit == (t & 0x80000000 != 0)
    ensures Feedback(Xor32(s, t), false) == Feedback(s, bit)
    ensures Feedback(s, bit) == Xor32(Feedback(s, false), Feedback(t, false))
  {
    assert (s ^ t) & 0x80000000 == (s & 0x80000000) ^ (t & 0x80000000);
    TopBit(s);
    TopBit(t);
    TopBit(s ^ t);
  }

  lemma TopBit(s: bv32)
    ensures s & 0x80000000 == 0 || s & 0x80000000 == 0x80000000
  {}

  lemma ZeroStepXor(s: bv32, t: bv32)
    ensures BitStep(Xor32(s, t), false) == Xor32(BitStep(s, false), BitStep(t, false))
    ensures BitStep(Xor32(s, t), false) == Xor32(BitStep(s, t & 0x80000000 != 0), t << 1)
  {
    FeedbackXor(s, t, t & 0x80000000 != 0);
    hide Xor32, Feedback;
    var fs, ft, f := Feedback(s, false), Feedback(t, false), Feedback(s, t & 0x80000000 != 0);
    ShiftXor32(s, t);
    Xor32Swap(s << 1, fs, t << 1, ft);
    Xor32Laws(s << 1, t << 1, f);
    Xor32Laws(t << 1, f, 0);
    Xor32Laws(s << 1, f, t << 1);
  }

  lemma {:induction false} ZeroStepsXor(n: nat, s: bv32, t: bv32)
    ensures ZeroSteps(n, Xor32(s, t)) == Xor32(ZeroSteps(n, s), ZeroSteps(n, t))
    decreases n
  {
    hide Xor32, BitStep;
    if n > 0 {
      ZeroStepXor(s, t);
      ZeroStepsXor(n - 1, BitStep(s, false), BitStep(t, false));
    }
  }

  predicate IsTop(w: bv32) { w & 0x80000000 != 0 }

  /** The top `n` bits of a word, highest first, and the claim that there are no others. */
  function TopBits(w: bv32, n: nat): (r: seq<bool>)
    ensures |r| == n
    decreases n
  {
    if n == 0 then [] else [IsTop(w)] + TopBits(w << 1, n - 1)
  }

  predicate Drained(w: bv32, n: nat)
    decreases n
  {
    if n == 0 then w == 0 else Drained(w << 1, n - 1)
  }

  /** Feeding a word bit by bit is adding it to the register and stepping with zeros. */
  lemma {:induction false} FeedWord(s: bv32, w: bv32, n: nat)
    requires Drained(w, n)
    ensures CrcBits(s, TopBits(w, n)) == ZeroSteps(n, Xor32(s, w))
    decreases n
  {
    if n == 0 {
      hide BitStep;
    } else {
      hide Xor32, BitStep;
      ZeroStepXor(s, w);
      FeedWord(BitStep(s, w & 0x80000000 != 0), w << 1, n - 1);
      assert TopBits(w, n)[1..] == TopBits(w << 1, n - 1);
    }
  }

  function Shl1(w: bv32): bv32 { w << 1 }

  lemma TopBitsStep(w: bv32, n: nat)
    ensures TopBits(w, n + 1) == [IsTop(w)] + TopBits(Shl1(w), n)
    ensures Drained(w, n + 1) == Drained(Shl1(w), n)
    ensures ShlBy(w, n + 1) == ShlBy(Shl1(w), n)
    ensures TopBits(w, 0) == [] && (Drained(w, 0) <==> w == 0) && ShlBy(w, 0) == w
  {}

  lemma ConcatFour(a: bool, b: bool, c: bool, d: bool, t: seq<bool>)
    ensures [a] + ([b] + ([c] + ([d] + t))) == [a, b, c, d] + t
  {
    assert [c] + ([d] + t) == [c, d] + t;
    assert [a] + ([b] + ([c, d] + t)) == [a, b] + ([c, d] + t);
  }

  lemma ConcatEight(a: bool, b: bool, c: bool, d: bool, e: bool, f: bool, g: bool, h: bool)
    ensures [a] + ([b] + ([c] + ([d] + ([e] + ([f] + ([g] + ([h] + []))))))) == [a, b, c, d, e, f, g, h]
  {
    ConcatFour(e, f, g, h, []);
    assert [e, f, g, h] + [] == [e, f, g, h];
    ConcatFour(a, b, c, d, [e, f, g, h]);
  }

  function Top8(w: bv32): bv8 { (w >> 24) as bv8 }

  function Shl8(w: bv32): bv32 { w << 8 }

  /** The top eight bits of a word are those of its top byte. */
  lemma TopByteBits(w: bv32)
    ensures TopBits(w, 8) == ByteBits(Top8(w)) && ShlBy(w, 8) == Shl8(w)
    ensures Drained(w, 8) <==> Shl8(w) == 0
  {
    hide IsTop, Bit, Shl1, TopBits, Drained, ShlBy, Top8, Shl8;
    ShiftedBits(w);
    var w1 := Shl1(w); var w2 := Shl1(w1); var w3 := Shl1(w2); var w4 := Shl1(w3);
    var w5 := Shl1(w4); var w6 := Shl1(w5); var w7 := Shl1(w6);
    TopBitsStep(w, 7); TopBitsStep(w1, 6); TopBitsStep(w2, 5); TopBitsStep(w3, 4);
    TopBitsStep(w4, 3); TopBitsStep(w5, 2); TopBitsStep(w6, 1); TopBitsStep(w7, 0);
    TopBitsStep(Shl1(w7), 0);
    ConcatEight(IsTop(w), IsTop(w1), IsTop(w2), IsTop(w3), IsTop(w4), IsTop(w5), IsTop(w6), IsTop(w7));
  }

  lemma ShiftedBits(w0: bv32)
    ensures
      var b := Top8(w0);
      var w1 := Shl1(w0); var w2 := Shl1(w1); var w3 := Shl1(w2); var w4 := Shl1(w3);
      var w5 := Shl1(w4); var w6 := Shl1(w5); var w7 := Shl1(w6);
      && Bit(b, 0) == IsTop(w0) && Bit(b, 1) == IsTop(w1) && Bit(b, 2) == IsTop(w2) && Bit(b, 3) == IsTop(w3)
      && Bit(b, 4) == IsTop(w4) && Bit(b, 5) == IsTop(w5) && Bit(b, 6) == IsTop(w6) && Bit(b, 7) == IsTop(w7)
      && Shl1(w7) == Shl8(w0)
  {}

  lemma ByteAsTopBits(b: bv8)
    ensures Drained(b as bv32 << 24, 8)
    ensures TopBits(b as bv32 << 24, 8) == ByteBits(b)
  {
    hide TopBits, Drained, ByteBits;
    TopByteBits(b as bv32 << 24);
    assert Top8(b as bv32 << 24) == b;
    assert Shl8(b as bv32 << 24) == 0;
  }

  /** Entry `i` of the table: eight steps from `i << 24`. */
  function TableEntry(i: bv8): bv32 {
    ZeroSteps(8, i as bv32 << 24)
  }

  lemma {:induction false} ZeroStepsShift(n: nat, s: bv32, z: nat)
    requires n <= z && Clear(s, z)
    ensures ZeroSteps(n, s) == ShlBy(s, n)
    decreases n
  {
    if n > 0 {
      ClearStep(s, z);
      hide BitStep;
      ZeroStepsShift(n - 1, s << 1, z - 1);
    }
  }

  /** The top `n` bits are zero. */
  predicate Clear(s: bv32, n: nat)
    decreases n
  {
    n == 0 || (!IsTop(s) && Clear(s << 1, n - 1))
  }

  function ShlBy(s: bv32, n: nat): bv32
    decreases n
  {
    if n == 0 then s else ShlBy(s << 1, n - 1)
  }

  lemma ClearStep(s: bv32, n: nat)
    requires n > 0 && Clear(s, n)
    ensures BitStep(s, false) == s << 1 && Clear(s << 1, n - 1)
  {
    Xor32Laws(s << 1, 0, 0);
    hide Xor32;
  }

  lemma SplitWord(s: bv32, b: bv8)
    ensures
      var i := (s >> 24) as bv8 ^ b;
      var low := s & 0x00FFFFFF;
      Xor32(s, b as bv32 << 24) == Xor32(i as bv32 << 24, low)
  {
    TopByte(s, b);
  }

  lemma TopByte(s: bv32, b: bv8)
    ensures s ^ (b as bv32 << 24) == (((s >> 24) as bv8 ^ b) as bv32 << 24) ^ (s & 0x00FFFFFF)
  {}

  lemma LowWord(s: bv32)
    ensures Clear(s & 0x00FFFFFF, 8)
    ensures ShlBy(s & 0x00FFFFFF, 8) == s << 8
  {
    hide IsTop;
    LowWordTops(s);
  }

  lemma LowWordTops(s: bv32)
    ensures
      var w0 := s & 0x00FFFFFF;
      var w1 := w0 << 1; var w2 := w1 << 1; var w3 := w2 << 1; var w4 := w3 << 1;
      var w5 := w4 << 1; var w6 := w5 << 1; var w7 := w6 << 1;
      && !IsTop(w0) && !IsTop(w1) && !IsTop(w2) && !IsTop(w3) && !IsTop(w4) && !IsTop(w5) && !IsTop(w6) && !IsTop(w7)
      && w7 << 1 == s << 8
  {}

  /** One byte of the table-driven loop is eight bits of the serial definition. */
  lemma TableStep(s: bv32, b: bv8)
    ensures Xor32(s << 8, TableEntry((s >> 24) as bv8 ^ b)) == CrcBits(s, ByteBits(b))
  {
    hide Xor32, ByteBits, CrcBits, ZeroSteps, Clear, ShlBy, Drained, TopBits;
    var i, low := (s >> 24) as bv8 ^ b, s & 0x00FFFFFF;
    ByteAsTopBits(b);
    FeedWord(s, b as bv32 << 24, 8);
    SplitWord(s, b);
    ZeroStepsXor(8, i as bv32 << 24, low);
    LowWord(s);
    ZeroStepsShift(8, low, 8);
    Xor32Laws(s << 8, TableEntry(i), 0);
  }

  // ----- the program: crc32.c (lines 5-43) and CRC32Util.java (lines 16-43)

  ghost predicate TableReady(table: array<bv32>)
    reads table
  {
    table.Length == 256 && forall b: bv8 :: table[b as int] == TableEntry(b)
  }

  lemma AllEntries(table: array<bv32>)
    requires table.Length == 256
    requires forall k :: 0 <= k < 256 ==> table[k] == TableEntry(ByteOf(k))
    ensures TableReady(table)
  {
    hide TableEntry, ByteOf;
    forall b: bv8 ensures table[b as int] == TableEntry(b) {
      ByteOfIndex(b);
    }
  }

  /** Crc32Table of crc32.c; initTable of CRC32Util.java has the same loops. */
  method FillTable(table: array<bv32>)
    requires table.Length == 256
    modifies table
    ensures TableReady(table)
  {
    hide ZeroSteps, ByteOf, TableReady;
    var index := 0;
    while index < 256
      invariant 0 <= index <= 256
      invariant forall k :: 0 <= k < index ==> table[k] == TableEntry(ByteOf(k))
    {
      var crc := EightSteps(ByteOf(index) as bv32 << 24);
      table[index] := crc;
      index := index + 1;
    }
    AllEntries(table);
  }

  /** The inner loop. */
  method EightSteps(start: bv32) returns (crc: bv32)
    ensures crc == ZeroSteps(8, start)
  {
    hide BitStep;
    crc := start;
    var iteration := 8;
    while iteration > 0
      invariant 0 <= iteration <= 8
      invariant ZeroSteps(iteration, crc) == ZeroSteps(8, start)
    {
      ZeroStepByBranches(crc);
      if crc & 0x80000000 != 0 {
        crc := Xor32(crc << 1, 0x04C11DB7);
      } else {
        crc := crc << 1;
      }
      iteration := iteration - 1;
    }
  }

  lemma ZeroStepByBranches(crc: bv32)
    ensures BitStep(crc, false) == if crc & 0x80000000 != 0 then Xor32(crc << 1, 0x04C11DB7) else crc << 1
  {
    Xor32Laws(crc << 1, 0, 0);
    hide Xor32;
  }

  lemma SingleByte(b: bv8)
    ensures Bits([b]) == ByteBits(b)
  {
    hide ByteBits;
    assert [b][1..] == [] && Bits([]) == [];
  }

  lemma CrcBitsSnoc(s: bv32, m: seq<bv8>, n: nat)
    requires n < |m|
    ensures CrcBits(s, Bits(m[..n + 1])) == CrcBits(CrcBits(s, Bits(m[..n])), ByteBits(m[n]))
  {
    hide CrcBits, ByteBits;
    assert m[..n + 1] == m[..n] + [m[n]];
    BitsAppend(m[..n], [m[n]]);
    SingleByte(m[n]);
    hide Bits;
    CrcBitsAppend(s, Bits(m[..n]), ByteBits(m[n]));
  }

  /** crc = (crc << 8) ^ s_table[(crc >> 24) ^ *p] */
  function UnsignedStep(table: array<bv32>, crc: bv32, b: bv8): (r: bv32)
    requires TableReady(table)
    reads table
    ensures r == CrcBits(crc, ByteBits(b))
  {
    hide CrcBits, ByteBits, TableEntry, Xor32;
    TableStep(crc, b);
    Xor32(crc << 8, table[((crc >> 24) as bv8 ^ b) as int])
  }

  /** MakeCrc32 of crc32.c, on unsigned bytes and words. */
  method MakeCrc32(table: array<bv32>, buff: array<bv8>, len: nat) returns (r: bv32)
    requires table.Length == 256 && len <= buff.Length && (buff as object) != table
    modifies table
    ensures r == Crc(buff[..len])
  {
    hide CrcBits, Bits, ByteBits, UnsignedStep, TableReady;
    FillTable(table);
    ghost var m := buff[..len];
    var crc: bv32 := 0xFFFFFFFF;
    CrcBitsOfNothing();
    var i, p := len, 0;
    while i > 0
      invariant 0 <= i <= len && p == len - i
      invariant TableReady(table) && buff[..len] == m
      invariant crc == CrcBits(0xFFFFFFFF, Bits(m[..p]))
    {
      CrcBitsSnoc(0xFFFFFFFF, m, p);
      crc := UnsignedStep(table, crc, buff[p]);
      p, i := p + 1, i - 1;
    }
    assert m[..len] == m;
    r := !crc;
  }

  lemma CrcBitsOfNothing()
    ensures CrcBits(0xFFFFFFFF, Bits([])) == 0xFFFFFFFF
  {}

  /** Java's `crc >> 24` on a signed int. */
  function SignedShift24(x: bv32): bv32 {
    (x >> 24) | (if x & 0x80000000 != 0 then 0xFFFFFF00 else 0)
  }

  /** A Java byte widened to int. */
  function Widen(b: bv8): bv32 {
    b as bv32 | (if b & 0x80 != 0 then 0xFFFFFF00 else 0)
  }

  /** The sign bits that Java carries along are masked away before the lookup. */
  lemma SignBitsDropOut(crc: bv32, b: bv8)
    ensures ((SignedShift24(crc) ^ Widen(b)) & 0xFF) as bv8 == (crc >> 24) as bv8 ^ b
  {
    if crc & 0x80000000 != 0 {
      assert (((crc >> 24) | 0xFFFFFF00) & 0xFF) as bv8 == (crc >> 24) as bv8;
    }
    if b & 0x80 != 0 {
      assert ((b as bv32 | 0xFFFFFF00) & 0xFF) as bv8 == b;
    }
    XorLow(SignedShift24(crc), Widen(b));
  }

  lemma XorLow(x: bv32, y: bv32)
    ensures ((x ^ y) & 0xFF) as bv8 == ((x & 0xFF) as bv8) ^ ((y & 0xFF) as bv8)
  {}

  /** crc = (crc << 8) ^ table[((crc >> 24) ^ b) & 0xFF], on signed values */
  function SignedStep(table: array<bv32>, crc: bv32, b: bv8): (r: bv32)
    requires TableReady(table)
    reads table
    ensures r == CrcBits(crc, ByteBits(b))
  {
    hide CrcBits, ByteBits, TableEntry, Xor32, SignedShift24, Widen;
    TableStep(crc, b);
    SignBitsDropOut(crc, b);
    Xor32(crc << 8, table[((SignedShift24(crc) ^ Widen(b)) & 0xFF) as bv8 as int])
  }

  /** CRC32Util.getCRC32, with Java's signed bytes and arithmetic shift. The long it returns is the
      complemented register as an unsigned number. */
  method GetCRC32(table: array<bv32>, data: seq<bv8>) returns (r: bv32)
    requires table.Length == 256
    modifies table
    ensures r == Crc(data)
  {
    hide CrcBits, Bits, ByteBits, SignedStep, TableReady;
    FillTable(table);
    var crc: bv32 := 0xFFFFFFFF;
    CrcBitsOfNothing();
    var i := 0;
    while i < |data|
      invariant 0 <= i <= |data|
      invariant TableReady(table) && crc == CrcBits(0xFFFFFFFF, Bits(data[..i]))
    {
      CrcBitsSnoc(0xFFFFFFFF, data, i);
      crc := SignedStep(table, crc, data[i]);
      i := i + 1;
    }
    assert data[..|data|] == data;
    r := !crc;
  }

  // ----- a message followed by its CRC

  // ----- the check value

  /** Eight steps, written out. */
  function ByteSteps(s: bv32, b: bv8): bv32 {
    BitStep(BitStep(BitStep(BitStep(BitStep(BitStep(BitStep(BitStep(
      s, Bit(b, 0)), Bit(b, 1)), Bit(b, 2)), Bit(b, 3)), Bit(b, 4)), Bit(b, 5)), Bit(b, 6)), Bit(b, 7))
  }

  lemma NextByte(m: seq<bv8>, k: nat, s: bv32, b: bv8, t: bv32)
    requires k < |m| && m[k] == b && ByteSteps(s, b) == t
    ensures CrcBits(s, Bits(m[k..])) == CrcBits(t, Bits(m[k + 1..]))
  {
    hide BitStep, Bit;
    var rest := m[k + 1..];
    assert m[k..][0] == b && m[k..][1..] == rest;
    hide CrcBits, ByteSteps, ByteBits;
    EightBits(s, b);
    CrcBitsAppend(s, ByteBits(b), Bits(rest));
  }

  lemma OneBit(s: bv32, bits: seq<bool>, k: nat)
    requires k < |bits|
    ensures CrcBits(s, bits[k..]) == CrcBits(BitStep(s, bits[k]), bits[k + 1..])
  {
    hide BitStep;
    assert bits[k..][0] == bits[k] && bits[k..][1..] == bits[k + 1..];
  }

  lemma FourBits(s: bv32, x: seq<bool>, k: nat)
    requires k + 4 <= |x|
    ensures CrcBits(s, x[k..]) ==
            CrcBits(BitStep(BitStep(BitStep(BitStep(s, x[k]), x[k + 1]), x[k + 2]), x[k + 3]), x[k + 4..])
  {
    hide BitStep, CrcBits;
    var s1 := BitStep(s, x[k]);
    var s2 := BitStep(s1, x[k + 1]);
    var s3 := BitStep(s2, x[k + 2]);
    OneBit(s, x, k); OneBit(s1, x, k + 1); OneBit(s2, x, k + 2); OneBit(s3, x, k + 3);
  }

  lemma EightBits(s: bv32, b: bv8)
    ensures CrcBits(s, ByteBits(b)) == ByteSteps(s, b)
  {
    hide BitStep, CrcBits, Bit;
    var x := ByteBits(b);
    FourBits(s, x, 0);
    FourBits(BitStep(BitStep(BitStep(BitStep(s, x[0]), x[1]), x[2]), x[3]), x, 4);
    assert x[0..] == x && x[8..] == [];
    NoBits(ByteSteps(s, b));
  }

  lemma NoBits(s: bv32)
    ensures CrcBits(s, []) == s
  {}

  /** The ASCII digits 1 to 9, the usual check message of a CRC: this one is CRC-32/BZIP2. */
  lemma CheckValue(m: seq<bv8>)
    requires m == [0x31, 0x32, 0x33, 0x34, 0x35, 0x36, 0x37, 0x38, 0x39]
    ensures Crc(m) == 0xFC891918
  {
    hide CrcBits, Bits;
    CheckStart(m);
    CheckEnd(m);
    assert m[0..] == m;
    Complemented(m, 0x0376E6E7);
  }

  lemma Complemented(m: seq<bv8>, r: bv32)
    requires CrcBits(0xFFFFFFFF, Bits(m)) == r
    ensures Crc(m) == !r
  {}

  lemma CheckStart(m: seq<bv8>)
    requires |m| == 9 && m[0] == 0x31 && m[1] == 0x32 && m[2] == 0x33 && m[3] == 0x34 && m[4] == 0x35
    ensures CrcBits(0xFFFFFFFF, Bits(m[0..])) == CrcBits(0xBD9AB747, Bits(m[5..]))
  {
    hide CrcBits, Bits;
    NextByte(m, 0, 0xFFFFFFFF, 0x31, 0x9EFBCF93);
    NextByte(m, 1, 0x9EFBCF93, 0x32, 0x3FEC5E6A);
    NextByte(m, 2, 0x3FEC5E6A, 0x33, 0xD952F164);
    NextByte(m, 3, 0xD952F164, 0x34, 0xA695C4AA);
    NextByte(m, 4, 0xA695C4AA, 0x35, 0xBD9AB747);
  }

  lemma CheckEnd(m: seq<bv8>)
    requires |m| == 9 && m[5] == 0x36 && m[6] == 0x37 && m[7] == 0x38 && m[8] == 0x39
    ensures CrcBits(0xBD9AB747, Bits(m[5..])) == 0x0376E6E7
  {
    hide CrcBits, Bits;
    NextByte(m, 5, 0xBD9AB747, 0x36, 0xD8F06C8F);
    NextByte(m, 6, 0xD8F06C8F, 0x37, 0x0D8A14C4);
    NextByte(m, 7, 0x0D8A14C4, 0x38, 0x49E3C2FB);
    NextByte(m, 8, 0x49E3C2FB, 0x39, 0x0376E6E7);
    assert m[9..] == [];
    NoBytes(0x0376E6E7);
  }

  lemma NoBytes(s: bv32)
    ensures CrcBits(s, Bits([])) == s
  {}

  /** A word as four bytes, most significant first. */
  function Be4(w: bv32): (r: seq<bv8>)
    ensures |r| == 4
  {
    [Top8(w), Top8(Shl8(w)), Top8(Shl8(Shl8(w))), Top8(Shl8(Shl8(Shl8(w))))]
  }

  function Sealed(m: seq<bv8>): (r: seq<bv8>)
    ensures |r| == |m| + 4
  {
    m + Be4(Crc(m))
  }

  /** The last four bytes are the CRC of what precedes them. */
  predicate IsSealed(f: seq<bv8>) {
    |f| >= 4 && f == Sealed(f[..|f| - 4])
  }

  /** The register that every sealed message leaves behind. */
  function Residue(): bv32 { ZeroSteps(32, 0xFFFFFFFF) }

  lemma {:induction false} TopBitsSplit(w: bv32, m: nat, n: nat)
    ensures TopBits(w, m + n) == TopBits(w, m) + TopBits(ShlBy(w, m), n)
    ensures Drained(w, m + n) == Drained(ShlBy(w, m), n)
    decreases m
  {
    hide Shl1, IsTop, TopBits, Drained, ShlBy;
    TopBitsStep(w, 0);
    if m > 0 {
      var x, y := TopBits(Shl1(w), m - 1), TopBits(ShlBy(Shl1(w), m - 1), n);
      TopBitsSplit(Shl1(w), m - 1, n);
      TopBitsStep(w, m - 1 + n);
      TopBitsStep(w, m - 1);
      assert [IsTop(w)] + (x + y) == ([IsTop(w)] + x) + y;
    } else {
      assert [] + TopBits(w, n) == TopBits(w, n);
    }
  }

  lemma ShiftedOut(w: bv32)
    ensures Shl8(Shl8(Shl8(Shl8(w)))) == 0
  {}

  lemma FourBytesAsTopBits(w: bv32)
    ensures TopBits(w, 32) == Bits(Be4(w)) && Drained(w, 32)
  {
    hide TopBits, Drained, ByteBits, Bits, ShlBy, Top8, Shl8;
    var w1 := Shl8(w); var w2 := Shl8(w1); var w3 := Shl8(w2);
    ShiftedOut(w);
    TopByteBits(w);
    TopByteBits(w1);
    TopByteBits(w2);
    TopByteBits(w3);
    TopBitsSplit(w, 8, 24);
    TopBitsSplit(w1, 8, 16);
    TopBitsSplit(w2, 8, 8);
    BitsOfFour(Top8(w), Top8(w1), Top8(w2), Top8(w3));
  }

  lemma BitsOfCons(a: bv8, m: seq<bv8>)
    ensures Bits([a] + m) == ByteBits(a) + Bits(m)
  {
    hide ByteBits;
    assert ([a] + m)[1..] == m;
  }

  lemma BitsOfFour(a: bv8, b: bv8, c: bv8, d: bv8)
    ensures Bits([a, b, c, d]) == ByteBits(a) + (ByteBits(b) + (ByteBits(c) + ByteBits(d)))
  {
    hide ByteBits, Bits;
    SingleByte(d);
    BitsOfCons(c, [d]);
    BitsOfCons(b, [c, d]);
    BitsOfCons(a, [b, c, d]);
    assert [c] + [d] == [c, d] && [b] + [c, d] == [b, c, d] && [a] + [b, c, d] == [a, b, c, d];
  }

  /** Sealed messages are exactly the byte strings that leave the residue in the register. */
  lemma SealedIffResidue(f: seq<bv8>)
    requires |f| >= 4
    ensures IsSealed(f) <==> CrcBits(0xFFFFFFFF, Bits(f)) == Residue()
  {
    hide CrcBits, Bits, Be4, Crc, Residue;
    var n := |f| - 4;
    var m, t := f[..n], f[n..];
    assert f == m + t;
    SealLeavesResidue(m);
    if t != Be4(Crc(m)) {
      OtherTailsDiffer(m, t, Be4(Crc(m)));
      assert f[n..] != Sealed(m)[n..];
    }
  }

  lemma SealLeavesResidue(m: seq<bv8>)
    ensures CrcBits(0xFFFFFFFF, Bits(m + Be4(Crc(m)))) == Residue()
  {
    hide CrcBits, Bits, Be4, Residue, Xor32, Crc;
    var s, w := CrcBits(0xFFFFFFFF, Bits(m)), Crc(m);
    BitsAppend(m, Be4(w));
    CrcBitsAppend(0xFFFFFFFF, Bits(m), Bits(Be4(w)));
    CrcComplements(m);
    WordFillsRegister(s, w);
  }

  lemma CrcComplements(m: seq<bv8>)
    ensures Xor32(CrcBits(0xFFFFFFFF, Bits(m)), Crc(m)) == 0xFFFFFFFF
  {
    hide CrcBits, Bits;
    XorComplement(CrcBits(0xFFFFFFFF, Bits(m)));
  }

  lemma WordFillsRegister(s: bv32, w: bv32)
    requires Xor32(s, w) == 0xFFFFFFFF
    ensures CrcBits(s, Bits(Be4(w))) == Residue()
  {
    hide CrcBits, Bits, Be4, ZeroSteps, Xor32, TopBits, Drained;
    FourBytesAsTopBits(w);
    FeedWord(s, w, 32);
  }

  lemma OtherTailsDiffer(m: seq<bv8>, t: seq<bv8>, u: seq<bv8>)
    requires |t| == |u| == 4 && t != u
    ensures CrcBits(0xFFFFFFFF, Bits(m + t)) != CrcBits(0xFFFFFFFF, Bits(m + u))
  {
    hide CrcBits, Bits;
    var s := CrcBits(0xFFFFFFFF, Bits(m));
    BitsAppend(m, t);
    BitsAppend(m, u);
    CrcBitsAppend(0xFFFFFFFF, Bits(m), Bits(t));
    CrcBitsAppend(0xFFFFFFFF, Bits(m), Bits(u));
    if Bits(t) == Bits(u) {
      BitsInjective(t, u);
    }
    WindowDetected(s, Bits(t), Bits(u));
  }

  lemma XorComplement(s: bv32)
    ensures Xor32(s, !s) == 0xFFFFFFFF
  {}

  /** Damage inside any 32 consecutive bits of a sealed message, the CRC included, unseals it. */
  lemma BurstUnseals(f: seq<bv8>, g: seq<bv8>, p: seq<bool>, x: seq<bool>, y: seq<bool>, q: seq<bool>)
    requires IsSealed(f) && |g| == |f| && f != g
    requires Bits(f) == p + x + q && Bits(g) == p + y + q && |x| == |y| <= 32
    ensures !IsSealed(g)
  {
    hide CrcBits, Bits, Sealed;
    SealedIffResidue(f);
    SealedIffResidue(g);
    if x == y {
      BitsInjective(f, g);
    }
    BurstDetected(0xFFFFFFFF, p, x, y, q);
  }
}
