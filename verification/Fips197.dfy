/** The cipher of FIPS 197, byte by byte: the reference that the table-driven program is compared with. */
module Fips197 {
  import opened GF256

  /** One column of the state, or one word of the key schedule: four bytes, top row first. */
  datatype Column = Column(r0: bv8, r1: bv8, r2: bv8, r3: bv8)

  datatype State = State(c0: Column, c1: Column, c2: Column, c3: Column)

  type Block = s: seq<bv8> | |s| == 16 witness seq(16, i => 0)

  function FromBytes(b: Block): State {
    State(Column(b[0], b[1], b[2], b[3]), Column(b[4], b[5], b[6], b[7]),
          Column(b[8], b[9], b[10], b[11]), Column(b[12], b[13], b[14], b[15]))
  }

  function ToBytes(s: State): Block {
    [s.c0.r0, s.c0.r1, s.c0.r2, s.c0.r3, s.c1.r0, s.c1.r1, s.c1.r2, s.c1.r3,
     s.c2.r0, s.c2.r1, s.c2.r2, s.c2.r3, s.c3.r0, s.c3.r1, s.c3.r2, s.c3.r3]
  }

  // ----- section 5.1.1: the S-box

  /** Bit `i` of the affine transformation, as in equation (5.1). */
  function AffineBit(b: bv8, i: nat): bv8
    requires i < 8
  {
    ((b >> i) ^ (b >> ((i + 4) % 8)) ^ (b >> ((i + 5) % 8)) ^ (b >> ((i + 6) % 8)) ^ (b >> ((i + 7) % 8))
     ^ (0x63 >> i)) & 1
  }

  function Affine(b: bv8): bv8 {
    AffineBit(b, 0) | (AffineBit(b, 1) << 1) | (AffineBit(b, 2) << 2) | (AffineBit(b, 3) << 3) |
    (AffineBit(b, 4) << 4) | (AffineBit(b, 5) << 5) | (AffineBit(b, 6) << 6) | (AffineBit(b, 7) << 7)
  }

  function RotL(b: bv8, k: nat): bv8
    requires 0 < k < 8
  {
    (b << k) | (b >> (8 - k))
  }

  function AffineByRotations(b: bv8): bv8 {
    b ^ RotL(b, 1) ^ RotL(b, 2) ^ RotL(b, 3) ^ RotL(b, 4) ^ 0x63
  }

  /** The affine transformation is a sum of five rotations of its argument. */
  lemma AffineIsRotations(b: bv8)
    ensures Affine(b) == AffineByRotations(b)
  {
    hide AffineBit, AffineByRotations;
    LowAffineBits(b);
    HighAffineBits(b);
    BitsOf(AffineByRotations(b));
  }

  lemma LowAffineBits(b: bv8)
    ensures
      var r := AffineByRotations(b);
      && AffineBit(b, 0) == r & 1 && AffineBit(b, 1) == (r >> 1) & 1
      && AffineBit(b, 2) == (r >> 2) & 1 && AffineBit(b, 3) == (r >> 3) & 1
  {}

  lemma HighAffineBits(b: bv8)
    ensures
      var r := AffineByRotations(b);
      && AffineBit(b, 4) == (r >> 4) & 1 && AffineBit(b, 5) == (r >> 5) & 1
      && AffineBit(b, 6) == (r >> 6) & 1 && AffineBit(b, 7) == (r >> 7) & 1
  {}

  lemma BitsOf(r: bv8)
    ensures r == (r & 1) | (((r >> 1) & 1) << 1) | (((r >> 2) & 1) << 2) | (((r >> 3) & 1) << 3) |
                 (((r >> 4) & 1) << 4) | (((r >> 5) & 1) << 5) | (((r >> 6) & 1) << 6) | (((r >> 7) & 1) << 7)
  {}

  /** Section 5.3.2: the inverse of the affine transformation. */
  function InvAffine(b: bv8): bv8 {
    RotL(b, 1) ^ RotL(b, 3) ^ RotL(b, 6) ^ 0x05
  }

  lemma RotationsThenInverse(b: bv8)
    ensures InvAffine(AffineByRotations(b)) == b
  {}

  lemma InverseThenRotations(b: bv8)
    ensures AffineByRotations(InvAffine(b)) == b
  {}

  lemma AffineInverse(b: bv8)
    ensures InvAffine(Affine(b)) == b
    ensures Affine(InvAffine(b)) == b
  {
    hide Affine, InvAffine, AffineByRotations;
    AffineIsRotations(b);
    AffineIsRotations(InvAffine(b));
    RotationsThenInverse(b);
    InverseThenRotations(b);
  }

  ghost function SubByte(b: bv8): bv8 { Affine(Inverse(b)) }

  ghost function InvSubByte(b: bv8): bv8 { Inverse(InvAffine(b)) }

  lemma SubByteInverse(b: bv8)
    ensures InvSubByte(SubByte(b)) == b
    ensures SubByte(InvSubByte(b)) == b
  {
    hide Inverse, Affine, InvAffine;
    AffineInverse(Inverse(b));
    AffineInverse(b);
    InverseInvolution(b);
    InverseInvolution(InvAffine(b));
  }

  // ----- sections 5.1.1 to 5.1.4 and 5.3.1 to 5.3.4: the round transformations

  ghost function SubColumn(c: Column): Column {
    Column(SubByte(c.r0), SubByte(c.r1), SubByte(c.r2), SubByte(c.r3))
  }

  ghost function InvSubColumn(c: Column): Column {
    Column(InvSubByte(c.r0), InvSubByte(c.r1), InvSubByte(c.r2), InvSubByte(c.r3))
  }

  ghost function SubBytes(s: State): State {
    State(SubColumn(s.c0), SubColumn(s.c1), SubColumn(s.c2), SubColumn(s.c3))
  }

  ghost function InvSubBytes(s: State): State {
    State(InvSubColumn(s.c0), InvSubColumn(s.c1), InvSubColumn(s.c2), InvSubColumn(s.c3))
  }

  /** Row `r` moves `r` places to the left. */
  function ShiftRows(s: State): State {
    State(Column(s.c0.r0, s.c1.r1, s.c2.r2, s.c3.r3), Column(s.c1.r0, s.c2.r1, s.c3.r2, s.c0.r3),
          Column(s.c2.r0, s.c3.r1, s.c0.r2, s.c1.r3), Column(s.c3.r0, s.c0.r1, s.c1.r2, s.c2.r3))
  }

  /** Row `r` moves `r` places to the right. */
  function InvShiftRows(s: State): State {
    State(Column(s.c0.r0, s.c3.r1, s.c2.r2, s.c1.r3), Column(s.c1.r0, s.c0.r1, s.c3.r2, s.c2.r3),
          Column(s.c2.r0, s.c1.r1, s.c0.r2, s.c3.r3), Column(s.c3.r0, s.c2.r1, s.c1.r2, s.c0.r3))
  }

  function MixColumn(c: Column): Column {
    Column(Xor4(Mul(c.r0, 2), Mul(c.r1, 3), c.r2, c.r3),
           Xor4(c.r0, Mul(c.r1, 2), Mul(c.r2, 3), c.r3),
           Xor4(c.r0, c.r1, Mul(c.r2, 2), Mul(c.r3, 3)),
           Xor4(Mul(c.r0, 3), c.r1, c.r2, Mul(c.r3, 2)))
  }

  function InvMixColumn(c: Column): Column {
    Column(Xor4(Mul(c.r0, 14), Mul(c.r1, 11), Mul(c.r2, 13), Mul(c.r3, 9)),
           Xor4(Mul(c.r0, 9), Mul(c.r1, 14), Mul(c.r2, 11), Mul(c.r3, 13)),
           Xor4(Mul(c.r0, 13), Mul(c.r1, 9), Mul(c.r2, 14), Mul(c.r3, 11)),
           Xor4(Mul(c.r0, 11), Mul(c.r1, 13), Mul(c.r2, 9), Mul(c.r3, 14)))
  }

  function MixColumns(s: State): State {
    State(MixColumn(s.c0), MixColumn(s.c1), MixColumn(s.c2), MixColumn(s.c3))
  }

  function InvMixColumns(s: State): State {
    State(InvMixColumn(s.c0), InvMixColumn(s.c1), InvMixColumn(s.c2), InvMixColumn(s.c3))
  }

  function AddColumn(a: Column, b: Column): Column {
    Column(Xor(a.r0, b.r0), Xor(a.r1, b.r1), Xor(a.r2, b.r2), Xor(a.r3, b.r3))
  }

  function Add(s: State, k: State): State {
    State(AddColumn(s.c0, k.c0), AddColumn(s.c1, k.c1), AddColumn(s.c2, k.c2), AddColumn(s.c3, k.c3))
  }

  // ----- inverses of the round transformations

  lemma AddInverse(s: State, k: State)
    ensures Add(Add(s, k), k) == s
  {
    AddColumnInverse(s.c0, k.c0);
    AddColumnInverse(s.c1, k.c1);
    AddColumnInverse(s.c2, k.c2);
    AddColumnInverse(s.c3, k.c3);
    hide AddColumn;
  }

  lemma AddColumnInverse(a: Column, b: Column)
    ensures AddColumn(AddColumn(a, b), b) == a
  {
    hide Xor;
    XorCancel(a.r0, b.r0);
    XorCancel(a.r1, b.r1);
    XorCancel(a.r2, b.r2);
    XorCancel(a.r3, b.r3);
  }

  lemma SubBytesInverse(s: State)
    ensures InvSubBytes(SubBytes(s)) == s
    ensures SubBytes(InvSubBytes(s)) == s
  {
    hide SubByte, InvSubByte;
    SubColumnInverse(s.c0);
    SubColumnInverse(s.c1);
    SubColumnInverse(s.c2);
    SubColumnInverse(s.c3);
    hide SubColumn, InvSubColumn;
  }

  lemma SubColumnInverse(c: Column)
    ensures InvSubColumn(SubColumn(c)) == c
    ensures SubColumn(InvSubColumn(c)) == c
  {
    hide SubByte, InvSubByte;
    SubByteInverse(c.r0);
    SubByteInverse(c.r1);
    SubByteInverse(c.r2);
    SubByteInverse(c.r3);
  }

  lemma ShiftRowsInverse(s: State)
    ensures InvShiftRows(ShiftRows(s)) == s
    ensures ShiftRows(InvShiftRows(s)) == s
  {}

  /** InvSubBytes acts on single bytes, so it commutes with moving them. */
  lemma InvShiftSubCommute(s: State)
    ensures InvShiftRows(InvSubBytes(s)) == InvSubBytes(InvShiftRows(s))
  {
    hide InvSubByte;
  }

  // ----- MixColumns has order four

  function MixRow(a: bv8, b: bv8, c: bv8, d: bv8): bv8 {
    Xor4(Mul(a, 2), Mul(b, 3), c, d)
  }

  function InvMixRow(a: bv8, b: bv8, c: bv8, d: bv8): bv8 {
    Xor4(Mul(a, 14), Mul(b, 11), Mul(c, 13), Mul(d, 9))
  }

  lemma XorRotate(a: bv8, b: bv8, c: bv8, d: bv8)
    ensures Xor4(a, b, c, d) == Xor4(b, c, d, a)
  {
    hide Xor;
    XorAssoc(a, b, c);
    XorAssoc(a, Xor(b, c), d);
    XorAssoc(Xor(b, c), d, a);
    XorAssoc(Xor(Xor(b, c), d), a, a);
  }

  lemma MixByRows(c: Column)
    ensures MixColumn(c) == Column(MixRow(c.r0, c.r1, c.r2, c.r3), MixRow(c.r1, c.r2, c.r3, c.r0),
                                   MixRow(c.r2, c.r3, c.r0, c.r1), MixRow(c.r3, c.r0, c.r1, c.r2))
    ensures InvMixColumn(c) == Column(InvMixRow(c.r0, c.r1, c.r2, c.r3), InvMixRow(c.r1, c.r2, c.r3, c.r0),
                                      InvMixRow(c.r2, c.r3, c.r0, c.r1), InvMixRow(c.r3, c.r0, c.r1, c.r2))
  {
    hide Mul, Xor4;
    XorRotate(c.r0, Mul(c.r1, 2), Mul(c.r2, 3), c.r3);
    XorRotate(c.r0, c.r1, Mul(c.r2, 2), Mul(c.r3, 3));
    XorRotate(c.r1, Mul(c.r2, 2), Mul(c.r3, 3), c.r0);
    XorRotate(Mul(c.r3, 2), Mul(c.r0, 3), c.r1, c.r2);
    XorRotate(Mul(c.r0, 3), c.r1, c.r2, Mul(c.r3, 2));
    XorRotate(c.r1, c.r2, Mul(c.r3, 2), Mul(c.r0, 3));
    XorRotate(Mul(c.r0, 9), Mul(c.r1, 14), Mul(c.r2, 11), Mul(c.r3, 13));
    XorRotate(Mul(c.r0, 13), Mul(c.r1, 9), Mul(c.r2, 14), Mul(c.r3, 11));
    XorRotate(Mul(c.r1, 9), Mul(c.r2, 14), Mul(c.r3, 11), Mul(c.r0, 13));
    XorRotate(Mul(c.r3, 14), Mul(c.r0, 11), Mul(c.r1, 13), Mul(c.r2, 9));
  }

  /** Rearrangements of exclusive ors. */
  lemma XorAround(a: bv8, b: bv8, s: bv8, x: bv8, y: bv8)
    ensures Xor(Xor(Xor(a, s), x), Xor(Xor(b, s), y)) == Xor(Xor(a, b), Xor(x, y))
    ensures Xor(Xor(Xor(a, s), x), s) == Xor(a, x)
  {
    hide Xor;
    XorSwap(Xor(a, s), x, Xor(b, s), y);
    XorSwap(a, s, b, s);
    XorSelf(s);
    XorSelf(Xor(a, b));
    XorAssoc(Xor(a, s), x, s);
    XorAssoc(s, x, s);
    XorAssoc(Xor(a, s), s, x);
    XorCancel(a, s);
  }

  lemma XorAbsorb(a: bv8, c: bv8, u: bv8)
    ensures Xor(Xor(a, u), Xor(c, u)) == Xor(a, c)
  {
    hide Xor;
    XorSwap(a, u, c, u);
    XorSelf(u);
    XorSelf(Xor(a, c));
  }

  lemma Xor4Pairs(a: bv8, b: bv8, c: bv8, d: bv8)
    ensures Xor4(a, b, c, d) == Xor(Xor(a, b), Xor(c, d))
    ensures Xor4(a, b, c, d) == Xor(Xor(a, c), Xor(b, d))
    ensures Xor(a, Xor4(a, b, c, d)) == Xor(Xor(b, c), d)
    ensures Xor4(b, c, d, a) == Xor4(a, b, c, d)
  {
    XorRotate(a, b, c, d);
    hide Xor;
    XorAssoc(Xor(a, b), c, d);
    XorSwap(a, b, c, d);
    XorAssoc(a, b, c);
    XorAssoc(a, Xor(b, c), d);
    XorCancel(Xor(Xor(b, c), d), a);
  }

  lemma Xor4Xor(a: bv8, b: bv8, c: bv8, d: bv8, p: bv8, q: bv8, r: bv8, t: bv8)
    ensures Xor4(Xor(a, p), Xor(b, q), Xor(c, r), Xor(d, t)) == Xor(Xor4(a, b, c, d), Xor4(p, q, r, t))
  {
    hide Xor;
    XorSwap(a, p, b, q);
    XorSwap(Xor(a, b), Xor(p, q), c, r);
    XorSwap(Xor(Xor(a, b), c), Xor(Xor(p, q), r), d, t);
  }

  lemma XtimeXor4(a: bv8, b: bv8, c: bv8, d: bv8)
    ensures Xtime(Xor4(a, b, c, d)) == Xor4(Xtime(a), Xtime(b), Xtime(c), Xtime(d))
  {
    hide Xor, Xtime;
    XtimeXor(a, b);
    XtimeXor(Xor(a, b), c);
    XtimeXor(Xor(Xor(a, b), c), d);
  }

  /** A row of MixColumns from the sum of the column: the top byte, the sum, and twice the top pair. */
  lemma MixRowBySum(a: bv8, b: bv8, c: bv8, d: bv8)
    ensures MixRow(a, b, c, d) == Xor(Xor(a, Xor4(a, b, c, d)), Xtime(Xor(a, b)))
  {
    hide Xtime, Mul, Xor;
    var x, y := Xor(Xtime(a), Xtime(b)), Xor(c, d);
    MulSmall(a);
    MulSmall(b);
    XtimeXor(a, b);
    Xor4Pairs(a, b, c, d);
    Xor4Pairs(Xtime(a), Xor(b, Xtime(b)), c, d);
    calc {
      MixRow(a, b, c, d);
      Xor(Xor(Xtime(a), Xor(b, Xtime(b))), y);
      { XorAssoc(b, Xtime(b), Xtime(a)); XorAssoc(Xtime(a), Xor(b, Xtime(b)), y); XorAssoc(Xtime(b), Xtime(a), b); }
      Xor(Xor(b, x), y);
      { XorAssoc(b, x, y); XorAssoc(x, y, b); XorAssoc(b, y, x); }
      Xor(Xor(b, y), x);
      { XorAssoc(b, c, d); }
      Xor(Xor(a, Xor4(a, b, c, d)), x);
    }
  }

  /** Two rounds of MixColumns leave 5 times a byte plus 4 times the byte two rows away. */
  function MixTwiceRow(a: bv8, c: bv8): bv8 {
    Xor(Mul(a, 5), Mul(c, 4))
  }

  lemma MixTwice(a: bv8, b: bv8, c: bv8, d: bv8)
    ensures MixRow(MixRow(a, b, c, d), MixRow(b, c, d, a), MixRow(c, d, a, b), MixRow(d, a, b, c)) ==
            MixTwiceRow(a, c)
  {
    hide Xtime, Mul, Xor, Xor4, MixRow;
    var s := Xor4(a, b, c, d);
    var m0, m1, m2, m3 := MixRow(a, b, c, d), MixRow(b, c, d, a), MixRow(c, d, a, b), MixRow(d, a, b, c);
    Xor4Pairs(a, b, c, d);
    Xor4Pairs(b, c, d, a);
    Xor4Pairs(c, d, a, b);
    PairSum(a, b, c, d);
    PairSum(c, d, a, b);
    XorAssoc(a, c, a);
    XorAbsorb(Xor(a, b), Xor(c, d), Xtime(Xor(a, c)));
    Xor4Pairs(m0, m1, m2, m3);
    assert Xor4(m0, m1, m2, m3) == s;
    MixRowBySum(m0, m1, m2, m3);
    MixRowBySum(a, b, c, d);
    XorAround(a, a, s, Xtime(Xor(a, b)), 0);
    XtimeXor(Xor(a, b), Xtime(Xor(a, c)));
    XorAssoc(Xor(a, Xtime(Xor(a, b))), Xtime(Xor(a, b)), Xtime(Xtime(Xor(a, c))));
    XorCancel(a, Xtime(Xor(a, b)));
    MixTwiceRowBySum(a, c);
  }

  lemma PairSum(a: bv8, b: bv8, c: bv8, d: bv8)
    ensures Xor(MixRow(a, b, c, d), MixRow(b, c, d, a)) == Xor(Xor(a, b), Xtime(Xor(a, c)))
  {
    hide Xtime, Mul, Xor, Xor4, MixRow;
    var s := Xor4(a, b, c, d);
    Xor4Pairs(a, b, c, d);
    MixRowBySum(a, b, c, d);
    MixRowBySum(b, c, d, a);
    XorAround(a, b, s, Xtime(Xor(a, b)), Xtime(Xor(b, c)));
    XtimeXor(Xor(a, b), Xor(b, c));
    XorAssoc(c, b, b);
    XorAssoc(b, c, c);
    XorAbsorb(a, c, b);
  }

  lemma MixTwiceRowBySum(a: bv8, c: bv8)
    ensures MixTwiceRow(a, c) == Xor(a, Xtime(Xtime(Xor(a, c))))
  {
    hide Xtime, Mul, Xor;
    MulSmall(a);
    MulSmall(c);
    XtimeXor(a, c);
    XtimeXor(Xtime(a), Xtime(c));
    XorAssoc(a, Xtime(Xtime(a)), Xtime(Xtime(c)));
  }

  lemma MixFourTimes(a: bv8, c: bv8)
    ensures MixTwiceRow(MixTwiceRow(a, c), MixTwiceRow(c, a)) == a
  {
    hide Xtime, Xor, MixTwiceRow;
    var u := Xtime(Xtime(Xor(a, c)));
    MixTwiceRowBySum(a, c);
    MixTwiceRowBySum(c, a);
    XorAssoc(a, c, c);
    MixTwiceRowBySum(MixTwiceRow(a, c), MixTwiceRow(c, a));
    XorAbsorb(a, c, u);
    XorCancel(a, u);
  }

  /** The inverse of MixColumns is MixColumns applied three times. */
  lemma InvMixIsMixThrice(a: bv8, b: bv8, c: bv8, d: bv8)
    ensures InvMixRow(a, b, c, d) ==
            MixRow(MixTwiceRow(a, c), MixTwiceRow(b, d), MixTwiceRow(c, a), MixTwiceRow(d, b))
  {
    hide Xtime, Xor, Xor4, Mul, MixTwiceRow, MixRow, InvMixRow;
    var s := Xor4(a, b, c, d);
    var u, v := Xtime(Xtime(Xor(a, c))), Xtime(Xtime(Xor(b, d)));
    XorAssoc(a, c, c);
    XorAssoc(b, d, d);
    MixTwiceRowBySum(a, c);
    MixTwiceRowBySum(b, d);
    MixTwiceRowBySum(c, a);
    MixTwiceRowBySum(d, b);
    MixRowBySum(Xor(a, u), Xor(b, v), Xor(c, u), Xor(d, v));
    Xor4Pairs(Xor(a, u), Xor(b, v), Xor(c, u), Xor(d, v));
    XorAbsorb(a, c, u);
    XorAbsorb(b, d, v);
    Xor4Pairs(a, b, c, d);
    XorSwap(a, u, b, v);
    XtimeXor(Xor(a, b), Xor(u, v));
    XtimeXor(Xor(a, c), Xor(b, d));
    XtimeXor(Xtime(Xor(a, c)), Xtime(Xor(b, d)));
    InvMixRowBySum(a, b, c, d);
    var x, y := Xtime(Xor(a, b)), Xtime(Xtime(Xtime(s)));
    calc {
      InvMixRow(a, b, c, d);
      Xor(y, Xor(Xor(u, x), Xor(a, s)));
      { XorAssoc(u, x, Xor(a, s)); XorAssoc(x, Xor(a, s), y); XorAssoc(Xor(a, s), u, Xor(x, y));
        XorAssoc(Xor(u, x), Xor(a, s), y); XorAssoc(u, Xor(x, Xor(a, s)), y); XorAssoc(Xor(a, s), x, y);
        XorAssoc(y, Xor(Xor(u, x), Xor(a, s)), y); XorAssoc(u, Xor(a, s), Xor(x, y)); }
      Xor(Xor(u, Xor(a, s)), Xor(x, y));
      { XorAssoc(u, a, s); XorAssoc(a, u, s); }
      Xor(Xor(Xor(a, u), s), Xor(x, y));
    }
  }

  lemma InvMixRowBySum(a: bv8, b: bv8, c: bv8, d: bv8)
    ensures
      var s := Xor4(a, b, c, d);
      InvMixRow(a, b, c, d) ==
      Xor(Xtime(Xtime(Xtime(s))), Xor(Xor(Xtime(Xtime(Xor(a, c))), Xtime(Xor(a, b))), Xor(a, s)))
  {
    hide Xtime, Xor, Xor4, Mul;
    var a', b', c', d' := Xtime(a), Xtime(b), Xtime(c), Xtime(d);
    var a'', b'', c'', d'' := Xtime(a'), Xtime(b'), Xtime(c'), Xtime(d');
    MulSmall(a);
    MulSmall(b);
    MulSmall(c);
    MulSmall(d);
    var p, q, r := Xor(a', a''), Xor(b, b'), Xor(c, c'');
    XorAssoc(a', a'', Xtime(a''));
    XorAssoc(p, Xtime(a''), a');
    XorAssoc(b, b', Xtime(b''));
    XorAssoc(q, Xtime(b''), b);
    XorAssoc(c, c'', Xtime(c''));
    XorAssoc(r, Xtime(c''), c);
    XorAssoc(d, Xtime(d''), d);
    Xor4Xor(Xtime(a''), Xtime(b''), Xtime(c''), Xtime(d''), p, q, r, d);
    XtimeXor4(a, b, c, d);
    XtimeXor4(a', b', c', d');
    XtimeXor4(a'', b'', c'', d'');
    XtimeXor(a, b);
    XtimeXor(a, c);
    XtimeXor(a', c');
    Xor4Pairs(a, b, c, d);
    calc {
      Xor4(p, q, r, d);
      { Xor4Pairs(p, q, r, d); }
      Xor(Xor(p, q), Xor(r, d));
      { XorAssoc(a', a'', q); XorAssoc(b', b, b'); XorSwap(a'', a', b', b); XorAssoc(b', b, b);
        XorSwap(a', a'', b', b); }
      Xor(Xor(Xor(a', b'), Xor(a'', b)), Xor(r, d));
      { XorAssoc(c'', c, d); XorAssoc(c, c'', d); XorAssoc(c'', Xor(c, d), d); }
      Xor(Xor(Xor(a', b'), Xor(a'', b)), Xor(c'', Xor(c, d)));
      { XorAssoc(Xor(a', b'), Xor(a'', b), Xor(c'', Xor(c, d))); XorSwap(a'', b, c'', Xor(c, d)); }
      Xor(Xor(a', b'), Xor(Xor(a'', c''), Xor(b, Xor(c, d))));
      { XorAssoc(Xor(a', b'), Xor(a'', c''), Xor(b, Xor(c, d))); XorAssoc(Xor(a'', c''), Xor(a', b'), a);
        XorAssoc(b, c, d); }
      Xor(Xor(Xor(a'', c''), Xor(a', b')), Xor(Xor(b, c), d));
    }
  }

  function TwiceMixed(c: Column): Column {
    Column(MixTwiceRow(c.r0, c.r2), MixTwiceRow(c.r1, c.r3), MixTwiceRow(c.r2, c.r0), MixTwiceRow(c.r3, c.r1))
  }

  lemma MixColumnOrderFour(c: Column)
    ensures MixColumn(MixColumn(c)) == TwiceMixed(c)
    ensures InvMixColumn(c) == MixColumn(TwiceMixed(c))
    ensures TwiceMixed(TwiceMixed(c)) == c
  {
    hide MixTwiceRow, MixRow, InvMixRow, MixColumn, InvMixColumn;
    MixByRows(c);
    MixByRows(MixColumn(c));
    MixByRows(TwiceMixed(c));
    MixTwice(c.r0, c.r1, c.r2, c.r3);
    MixTwice(c.r1, c.r2, c.r3, c.r0);
    MixTwice(c.r2, c.r3, c.r0, c.r1);
    MixTwice(c.r3, c.r0, c.r1, c.r2);
    InvMixIsMixThrice(c.r0, c.r1, c.r2, c.r3);
    InvMixIsMixThrice(c.r1, c.r2, c.r3, c.r0);
    InvMixIsMixThrice(c.r2, c.r3, c.r0, c.r1);
    InvMixIsMixThrice(c.r3, c.r0, c.r1, c.r2);
    MixFourTimes(c.r0, c.r2);
    MixFourTimes(c.r1, c.r3);
    MixFourTimes(c.r2, c.r0);
    MixFourTimes(c.r3, c.r1);
  }

  lemma MixColumnInverse(c: Column)
    ensures InvMixColumn(MixColumn(c)) == c
    ensures MixColumn(InvMixColumn(c)) == c
  {
    hide MixColumn, InvMixColumn, TwiceMixed;
    MixColumnOrderFour(c);
    MixColumnOrderFour(MixColumn(c));
    MixColumnOrderFour(TwiceMixed(c));
  }

  lemma InvMixColumnAdd(a: Column, b: Column)
    ensures InvMixColumn(AddColumn(a, b)) == AddColumn(InvMixColumn(a), InvMixColumn(b))
  {
    hide Xor, Xor4, Mul;
    InvMixRowAdd(a, b, 14, 11, 13, 9);
    InvMixRowAdd(a, b, 9, 14, 11, 13);
    InvMixRowAdd(a, b, 13, 9, 14, 11);
    InvMixRowAdd(a, b, 11, 13, 9, 14);
  }

  lemma InvMixRowAdd(a: Column, b: Column, m: bv8, n: bv8, p: bv8, q: bv8)
    ensures
      var c := AddColumn(a, b);
      Xor4(Mul(c.r0, m), Mul(c.r1, n), Mul(c.r2, p), Mul(c.r3, q)) ==
      Xor(Xor4(Mul(a.r0, m), Mul(a.r1, n), Mul(a.r2, p), Mul(a.r3, q)),
          Xor4(Mul(b.r0, m), Mul(b.r1, n), Mul(b.r2, p), Mul(b.r3, q)))
  {
    hide Xor, Xor4, Mul;
    MulXor(a.r0, b.r0, m);
    MulXor(a.r1, b.r1, n);
    MulXor(a.r2, b.r2, p);
    MulXor(a.r3, b.r3, q);
    Xor4Xor(Mul(a.r0, m), Mul(a.r1, n), Mul(a.r2, p), Mul(a.r3, q),
            Mul(b.r0, m), Mul(b.r1, n), Mul(b.r2, p), Mul(b.r3, q));
  }

  lemma MixColumnsInverse(s: State)
    ensures InvMixColumns(MixColumns(s)) == s
    ensures MixColumns(InvMixColumns(s)) == s
  {
    hide MixColumn, InvMixColumn;
    MixColumnInverse(s.c0);
    MixColumnInverse(s.c1);
    MixColumnInverse(s.c2);
    MixColumnInverse(s.c3);
  }

  lemma InvMixColumnsAdd(s: State, k: State)
    ensures InvMixColumns(Add(s, k)) == Add(InvMixColumns(s), InvMixColumns(k))
  {
    hide InvMixColumn, AddColumn;
    InvMixColumnAdd(s.c0, k.c0);
    InvMixColumnAdd(s.c1, k.c1);
    InvMixColumnAdd(s.c2, k.c2);
    InvMixColumnAdd(s.c3, k.c3);
  }
}
