/** The lookup tables of aes.c and the code that fills them (lines 307-436).

    Temporaries that the C code masks to eight bits after every step are bytes here; the table
    entries are 32-bit words. */
module AesTables {
  import opened Bytes
  import opened GF256
  import opened Fips197
  import opened BlockCipher

  // ----- words and their bytes, lowest first

  function Byte0(w: bv32): bv8 { (w & 0xFF) as bv8 }
  function Byte1(w: bv32): bv8 { ((w >> 8) & 0xFF) as bv8 }
  function Byte2(w: bv32): bv8 { ((w >> 16) & 0xFF) as bv8 }
  function Byte3(w: bv32): bv8 { ((w >> 24) & 0xFF) as bv8 }

  /** The column that a little-endian word holds. */
  function ColumnOf(w: bv32): Column {
    Column(Byte0(w), Byte1(w), Byte2(w), Byte3(w))
  }

  /** GET_ULONG_LE of four bytes; also the shape of every table entry. */
  function Word(b0: bv8, b1: bv8, b2: bv8, b3: bv8): bv32 {
    (b0 as bv32) | (b1 as bv32 << 8) | (b2 as bv32 << 16) | (b3 as bv32 << 24)
  }

  lemma ColumnOfWord(b0: bv8, b1: bv8, b2: bv8, b3: bv8)
    ensures ColumnOf(Word(b0, b1, b2, b3)) == Column(b0, b1, b2, b3)
  {}

  lemma WordXor(a: bv32, b: bv32)
    ensures ColumnOf(Xor32(a, b)) == AddColumn(ColumnOf(a), ColumnOf(b))
  {}

  /** The ROTL8 macro: bytes move down one row. */
  function RotL8(w: bv32): bv32 { ((w << 8) & 0xFFFFFFFF) | (w >> 24) }

  function DownOne(c: Column): Column { Column(c.r3, c.r0, c.r1, c.r2) }

  lemma RotL8Column(w: bv32)
    ensures ColumnOf(RotL8(w)) == DownOne(ColumnOf(w))
  {}

  // ----- what each table entry stands for

  /** What the byte `b` in row 0 adds to its column in SubBytes followed by MixColumns. */
  ghost function Forward(b: bv8): Column {
    var s := SubByte(b);
    Column(Mul(s, 2), s, s, Mul(s, 3))
  }

  /** What the byte `x` in row 0 adds to its column in InvMixColumns. */
  function InvMixPart(x: bv8): Column {
    Column(Mul(x, 14), Mul(x, 9), Mul(x, 13), Mul(x, 11))
  }

  ghost predicate ForwardEntry(b: bv8, f0: bv32, f1: bv32, f2: bv32, f3: bv32) {
    && ColumnOf(f0) == Forward(b)
    && ColumnOf(f1) == DownOne(Forward(b))
    && ColumnOf(f2) == DownOne(DownOne(Forward(b)))
    && ColumnOf(f3) == DownOne(DownOne(DownOne(Forward(b))))
  }

  ghost predicate ReverseEntry(b: bv8, r0: bv32, r1: bv32, r2: bv32, r3: bv32) {
    && ColumnOf(r0) == InvMixPart(InvSubByte(b))
    && ColumnOf(r1) == DownOne(InvMixPart(InvSubByte(b)))
    && ColumnOf(r2) == DownOne(DownOne(InvMixPart(InvSubByte(b))))
    && ColumnOf(r3) == DownOne(DownOne(DownOne(InvMixPart(InvSubByte(b)))))
  }

  /** The XTIME macro, masked to a byte as at every use. */
  function XtimeByMacro(x: bv8): bv8 { (x << 1) ^ (if x & 0x80 != 0 then 0x1B else 0x00) }

  lemma XtimeMacro(x: bv8)
    ensures XtimeByMacro(x) == Xtime(x)
    ensures x ^ XtimeByMacro(x) == Times3(x)
  {}

  ghost predicate LogsReady(pow: array<bv8>, log: array<int>)
    reads pow, log
  {
    && pow.Length == log.Length == 256
    && (forall k :: 0 <= k < 256 ==> pow[k] == Pow3(k))
    && (forall b: bv8 :: b != 0 ==> log[b as int] == Log(b))
  }

  /** The MUL macro. */
  function MulByTables(pow: array<bv8>, log: array<int>, x: bv8, y: bv8): (z: bv8)
    requires LogsReady(pow, log)
    reads pow, log
    ensures z == Mul(y, x)
  {
    hide Pow3, Mul;
    MulStep(y, 0);
    ZeroMul(x);
    if x != 0 && y != 0 then
      MulByLogs(y, x);
      pow[(log[x as int] + log[y as int]) % 255]
    else 0
  }

  /** The inverse of the byte `i`, read off the two tables. */
  function Inverted(pow: array<bv8>, log: array<int>, i: int): (x: bv8)
    requires LogsReady(pow, log) && 0 < i < 256
    reads pow, log
    ensures Affine(x) == SubByte(ByteOf(i))
  {
    hide Affine, SubByte, Pow3, ByteOf;
    NonzeroByte(i);
    InverseByLogs(ByteOf(i));
    assert log[ByteOf(i) as int] == Log(ByteOf(i));
    pow[255 - log[i]]
  }

  lemma ReverseComplete(rsb: array<bv8>)
    requires rsb.Length == 256
    requires forall k :: 0 <= k < 256 ==> rsb[SubByte(ByteOf(k)) as int] == ByteOf(k)
    ensures forall k :: 0 <= k < 256 ==> rsb[k] == InvSubByte(ByteOf(k))
  {
    hide SubByte, InvSubByte, ByteOf;
    forall k | 0 <= k < 256 ensures rsb[k] == InvSubByte(ByteOf(k)) {
      var b := InvSubByte(ByteOf(k));
      SubByteInverse(ByteOf(k));
      ByteOfValue(k);
      ByteOfIndex(b);
      assert rsb[SubByte(ByteOf(b as int)) as int] == b;
    }
  }

  class Tables {
    const fsb: array<bv8>
    const ft0: array<bv32>
    const ft1: array<bv32>
    const ft2: array<bv32>
    const ft3: array<bv32>
    const rsb: array<bv8>
    const rt0: array<bv32>
    const rt1: array<bv32>
    const rt2: array<bv32>
    const rt3: array<bv32>
    const rcon: array<bv32>
    var initDone: bool

    ghost predicate Shape() {
      && fsb.Length == rsb.Length == 256 && fsb != rsb && rcon.Length == 10
      && ft0.Length == ft1.Length == ft2.Length == ft3.Length == 256
      && rt0.Length == rt1.Length == rt2.Length == rt3.Length == 256
      && ft0 != ft1 && ft0 != ft2 && ft0 != ft3 && ft0 != rt0 && ft0 != rt1 && ft0 != rt2 && ft0 != rt3 && ft0 != rcon
      && ft1 != ft2 && ft1 != ft3 && ft1 != rt0 && ft1 != rt1 && ft1 != rt2 && ft1 != rt3 && ft1 != rcon
      && ft2 != ft3 && ft2 != rt0 && ft2 != rt1 && ft2 != rt2 && ft2 != rt3 && ft2 != rcon
      && ft3 != rt0 && ft3 != rt1 && ft3 != rt2 && ft3 != rt3 && ft3 != rcon
      && rt0 != rt1 && rt0 != rt2 && rt0 != rt3 && rt0 != rcon
      && rt1 != rt2 && rt1 != rt3 && rt1 != rcon
      && rt2 != rt3 && rt2 != rcon
      && rt3 != rcon
    }

    ghost function Arrays(): set<object> {
      var first: object := fsb;
      {first, rsb, ft0, ft1, ft2, ft3, rt0, rt1, rt2, rt3, rcon}
    }

    ghost predicate RconReady()
      requires Shape()
      reads rcon
    {
      forall i :: 0 <= i < 10 ==> ColumnOf(rcon[i]) == Rcon(i)
    }

    ghost predicate SboxesReady()
      requires Shape()
      reads fsb, rsb
    {
      && (forall i :: 0 <= i < 256 ==> fsb[i] == SubByte(ByteOf(i)))
      && (forall i :: 0 <= i < 256 ==> rsb[i] == InvSubByte(ByteOf(i)))
    }

    ghost predicate RoundTablesReady(n: int)
      requires Shape() && 0 <= n <= 256
      reads ft0, ft1, ft2, ft3, rt0, rt1, rt2, rt3
    {
      && (forall i :: 0 <= i < n ==> ForwardEntry(ByteOf(i), ft0[i], ft1[i], ft2[i], ft3[i]))
      && (forall i :: 0 <= i < n ==> ReverseEntry(ByteOf(i), rt0[i], rt1[i], rt2[i], rt3[i]))
    }

    /** The shared state of the file: once `initDone` is set, every table holds its final contents. */
    ghost predicate Valid()
      reads this, Arrays()
    {
      Shape() && (initDone ==> RconReady() && SboxesReady() && RoundTablesReady(256))
    }

    ghost predicate Ready()
      reads this, Arrays()
    {
      Valid() && initDone
    }

    constructor ()
      ensures Valid() && !initDone && fresh(Arrays())
    {
      hide RconReady, SboxesReady, RoundTablesReady;
      fsb := new bv8[256];
      rsb := new bv8[256];
      ft0 := new bv32[256];
      ft1 := new bv32[256];
      ft2 := new bv32[256];
      ft3 := new bv32[256];
      rt0 := new bv32[256];
      rt1 := new bv32[256];
      rt2 := new bv32[256];
      rt3 := new bv32[256];
      rcon := new bv32[10];
      initDone := false;
    }

    /** The pow and log tables over GF(2^8). */
    method GenLogs() returns (pow: array<bv8>, log: array<int>)
      ensures fresh(pow) && fresh(log) && LogsReady(pow, log)
    {
      hide Times3, XtimeByMacro, Pow3;
      Pow3Zero();
      pow := new bv8[256];
      log := new int[256];
      var i, x := 0, 1 as bv8;
      while i < 256
        invariant 0 <= i <= 256
        invariant x == Pow3(i)
        invariant forall k :: 0 <= k < i ==> pow[k] == Pow3(k)
        invariant forall k :: 0 <= k < i && (k == 0 ==> i < 256) ==> log[Pow3(k) as int] == k
      {
        PowersApart(i);
        pow[i] := x;
        log[x as int] := i;
        XtimeMacro(x);
        Pow3Next(i);
        x := x ^ XtimeByMacro(x);
        i := i + 1;
      }
      forall b: bv8 | b != 0 ensures log[b as int] == Log(b) {
        assert Pow3(Log(b)) == b;
      }
    }

    method GenRcon()
      requires Shape()
      modifies rcon
      ensures RconReady()
    {
      hide Xtime, XtimeByMacro, Word;
      var i, x := 0, 1 as bv8;
      while i < 10
        invariant 0 <= i <= 10
        invariant x == RconByte(i)
        invariant forall k :: 0 <= k < i ==> ColumnOf(rcon[k]) == Rcon(k)
      {
        RconWord(x);
        rcon[i] := x as bv32;
        XtimeMacro(x);
        x := XtimeByMacro(x);
        i := i + 1;
      }
    }

    /** The forward and reverse S-boxes, from inverses taken by logarithms. */
    method GenSboxes(pow: array<bv8>, log: array<int>)
      requires Shape() && LogsReady(pow, log) && pow != fsb && pow != rsb
      requires (log as object) != fsb && (log as object) != rsb
      modifies fsb, rsb
      ensures SboxesReady()
    {
      hide SubByte, InvSubByte, Affine, ByteOf, LogsReady, Inverted;
      fsb[0] := 0x63;
      rsb[0x63] := 0x00;
      SubByteZero();
      var i := 1;
      while i < 256
        invariant 1 <= i <= 256
        invariant LogsReady(pow, log)
        invariant forall k :: 0 <= k < i ==> fsb[k] == SubByte(ByteOf(k))
        invariant forall k :: 0 <= k < i ==> rsb[SubByte(ByteOf(k)) as int] == ByteOf(k)
      {
        SubBytesApart(i);
        var x := RotateAndAdd(Inverted(pow, log, i));
        fsb[i] := x;
        rsb[x as int] := ByteOf(i);
        i := i + 1;
      }
      ReverseComplete(rsb);
    }

    /** Row `i` of the forward tables. */
    method FillForward(i: int)
      requires Shape() && 0 <= i < 256 && fsb[i] == SubByte(ByteOf(i))
      modifies ft0, ft1, ft2, ft3
      ensures ForwardEntry(ByteOf(i), ft0[i], ft1[i], ft2[i], ft3[i])
      ensures forall k :: 0 <= k < 256 && k != i ==>
                ft0[k] == old(ft0[k]) && ft1[k] == old(ft1[k]) && ft2[k] == old(ft2[k]) && ft3[k] == old(ft3[k])
    {
      hide Mul, SubByte, RotL8, ForwardEntry, Word, XtimeByMacro, ByteOf;
      var x := fsb[i];
      var y := XtimeByMacro(x);
      var z := y ^ x;
      ForwardWord(ByteOf(i));
      ft0[i] := Word(y, x, x, z);
      ft1[i] := RotL8(ft0[i]);
      ft2[i] := RotL8(ft1[i]);
      ft3[i] := RotL8(ft2[i]);
    }

    /** Row `i` of the reverse tables. */
    method FillReverse(pow: array<bv8>, log: array<int>, i: int)
      requires Shape() && 0 <= i < 256 && rsb[i] == InvSubByte(ByteOf(i)) && LogsReady(pow, log)
      modifies rt0, rt1, rt2, rt3
      ensures ReverseEntry(ByteOf(i), rt0[i], rt1[i], rt2[i], rt3[i])
      ensures forall k :: 0 <= k < 256 && k != i ==>
                rt0[k] == old(rt0[k]) && rt1[k] == old(rt1[k]) && rt2[k] == old(rt2[k]) && rt3[k] == old(rt3[k])
    {
      hide Mul, InvSubByte, RotL8, ReverseEntry, Word, LogsReady, MulByTables, ByteOf;
      var x := rsb[i];
      ReverseWord(ByteOf(i));
      rt0[i] := Word(MulByTables(pow, log, 0x0E, x), MulByTables(pow, log, 0x09, x),
                     MulByTables(pow, log, 0x0D, x), MulByTables(pow, log, 0x0B, x));
      rt1[i] := RotL8(rt0[i]);
      rt2[i] := RotL8(rt1[i]);
      rt3[i] := RotL8(rt2[i]);
    }

    method GenRoundTables(pow: array<bv8>, log: array<int>)
      requires Shape() && SboxesReady() && LogsReady(pow, log) && pow !in Arrays() && log !in Arrays()
      modifies ft0, ft1, ft2, ft3, rt0, rt1, rt2, rt3
      ensures RoundTablesReady(256)
    {
      hide SubByte, InvSubByte, ForwardEntry, ReverseEntry, ByteOf;
      var i := 0;
      while i < 256
        invariant 0 <= i <= 256
        invariant RoundTablesReady(i)
      {
        FillForward(i);
        FillReverse(pow, log, i);
        i := i + 1;
      }
    }

    /** The one-time initialization that every key setup starts with. */
    method Init()
      requires Valid()
      modifies this, Arrays()
      ensures Ready()
    {
      hide RconReady, SboxesReady, RoundTablesReady;
      if !initDone {
        Generate();
        initDone := true;
      }
    }

    /** aes_gen_tables */
    method Generate()
      requires Shape()
      modifies Arrays()
      ensures RconReady() && SboxesReady() && RoundTablesReady(256)
    {
      hide RconReady, SboxesReady, RoundTablesReady;
      var pow, log := GenLogs();
      GenRcon();
      GenSboxes(pow, log);
      GenRoundTables(pow, log);
    }
  }

  lemma RconWord(x: bv8)
    ensures ColumnOf(x as bv32) == Column(x, 0, 0, 0)
  {}

  lemma SubByteZero()
    ensures SubByte(ByteOf(0)) == 0x63
    ensures SubByte(ByteOf(0)) as int == 0x63
    ensures ByteOf(0) == 0
  {
    ByteOfValue(0x63);
  }

  lemma NonzeroByte(i: int)
    requires 0 < i < 256
    ensures ByteOf(i) != 0 && ByteOf(i) as int == i
  {
    ByteOfValue(i);
  }

  lemma SubBytesApart(i: int)
    requires 0 < i < 256
    ensures forall k :: 0 <= k < i ==> SubByte(ByteOf(k)) as int != SubByte(ByteOf(i)) as int
  {
    hide SubByte, InvSubByte;
    forall k | 0 <= k < i ensures SubByte(ByteOf(k)) as int != SubByte(ByteOf(i)) as int {
      if SubByte(ByteOf(k)) as int == SubByte(ByteOf(i)) as int {
        ByteIndexInjective(SubByte(ByteOf(k)), SubByte(ByteOf(i)));
        SubByteInverse(ByteOf(k));
        SubByteInverse(ByteOf(i));
        ByteOfValue(k);
        ByteOfValue(i);
        assert false;
      }
    }
  }

  /** The rotate-and-add sequence of the S-box loop. */
  method RotateAndAdd(inv: bv8) returns (x: bv8)
    ensures x == Affine(inv)
  {
    hide Affine;
    AffineIsRotations(inv);
    RotLTwice(inv);
    hide RotL;
    x := inv;
    var y := x;
    y := RotL(y, 1);
    x := x ^ y;
    y := RotL(y, 1);
    x := x ^ y;
    y := RotL(y, 1);
    x := x ^ y;
    y := RotL(y, 1);
    x := x ^ (y ^ 0x63);
  }

  lemma InverseByLogs(b: bv8)
    requires b != 0
    ensures Affine(Pow3(255 - Log(b))) == SubByte(b)
  {
    hide Affine, Inverse, Pow3, Mul;
    InverseExists(b);
    InverseUnique(b, Pow3(255 - Log(b)));
  }

  lemma RotLTwice(x: bv8)
    ensures RotL(RotL(x, 1), 1) == RotL(x, 2)
    ensures RotL(RotL(x, 2), 1) == RotL(x, 3)
    ensures RotL(RotL(x, 3), 1) == RotL(x, 4)
  {}

  lemma ForwardWord(b: bv8)
    ensures
      var x := SubByte(b);
      var w0 := Word(XtimeByMacro(x), x, x, XtimeByMacro(x) ^ x);
      var w1 := RotL8(w0);
      var w2 := RotL8(w1);
      ForwardEntry(b, w0, w1, w2, RotL8(w2))
  {
    hide SubByte, Word, RotL8, ColumnOf, Mul, XtimeByMacro, Xtime;
    var x := SubByte(b);
    XtimeMacro(x);
    MulSmall(x);
    XorAssoc(x, Xtime(x), 0);
    assert XtimeByMacro(x) ^ x == Xor(Xtime(x), x);
    hide Xor;
    var w0 := Word(XtimeByMacro(x), x, x, XtimeByMacro(x) ^ x);
    ColumnOfWord(XtimeByMacro(x), x, x, XtimeByMacro(x) ^ x);
    RotL8Column(w0);
    RotL8Column(RotL8(w0));
    RotL8Column(RotL8(RotL8(w0)));
  }

  lemma ReverseWord(b: bv8)
    ensures
      var x := InvSubByte(b);
      var w0 := Word(Mul(x, 14), Mul(x, 9), Mul(x, 13), Mul(x, 11));
      var w1 := RotL8(w0);
      var w2 := RotL8(w1);
      ReverseEntry(b, w0, w1, w2, RotL8(w2))
  {
    hide InvSubByte, Word, RotL8, ColumnOf, Mul;
    var x := InvSubByte(b);
    var w0 := Word(Mul(x, 14), Mul(x, 9), Mul(x, 13), Mul(x, 11));
    ColumnOfWord(Mul(x, 14), Mul(x, 9), Mul(x, 13), Mul(x, 11));
    RotL8Column(w0);
    RotL8Column(RotL8(w0));
    RotL8Column(RotL8(RotL8(w0)));
  }

  lemma Pow3Next(i: nat)
    ensures Pow3(i + 1) == Times3(Pow3(i))
  {}

  lemma PowersApart(i: nat)
    requires i < 256
    ensures forall k :: 0 <= k < i && (k == 0 ==> i < 255) ==> Pow3(k) as int != Pow3(i) as int
  {
    hide Pow3;
    forall k | 0 <= k < i && (k == 0 ==> i < 255) ensures Pow3(k) as int != Pow3(i) as int {
      Pow3Injective(k, i);
      if Pow3(k) as int == Pow3(i) as int { ByteIndexInjective(Pow3(k), Pow3(i)); }
    }
  }

  // ----- reading the tables

  lemma ForwardAt(t: Tables, b: bv8)
    requires t.Ready()
    ensures t.fsb[b as int] == SubByte(b)
    ensures ForwardEntry(b, t.ft0[b as int], t.ft1[b as int], t.ft2[b as int], t.ft3[b as int])
  {
    hide ForwardEntry, ReverseEntry, SubByte, InvSubByte, ByteOf;
    ByteOfIndex(b);
  }

  lemma ReverseAt(t: Tables, b: bv8)
    requires t.Ready()
    ensures t.rsb[b as int] == InvSubByte(b)
    ensures ReverseEntry(b, t.rt0[b as int], t.rt1[b as int], t.rt2[b as int], t.rt3[b as int])
  {
    hide ForwardEntry, ReverseEntry, SubByte, InvSubByte, ByteOf;
    ByteOfIndex(b);
  }

  function Sum4(a: bv32, b: bv32, c: bv32, d: bv32): bv32 {
    Xor32(Xor32(Xor32(a, b), c), d)
  }

  /** Four forward entries add up to MixColumns of the substituted column. */
  lemma ForwardSum(c: Column, a0: bv32, a1: bv32, a2: bv32, a3: bv32)
    requires ColumnOf(a0) == Forward(c.r0) && ColumnOf(a1) == DownOne(Forward(c.r1))
    requires ColumnOf(a2) == DownOne(DownOne(Forward(c.r2)))
    requires ColumnOf(a3) == DownOne(DownOne(DownOne(Forward(c.r3))))
    ensures ColumnOf(Sum4(a0, a1, a2, a3)) == MixColumn(SubColumn(c))
  {
    hide Xor32, ColumnOf, Xor, Mul, SubByte;
    WordXor(a0, a1);
    WordXor(Xor32(a0, a1), a2);
    WordXor(Xor32(Xor32(a0, a1), a2), a3);
  }

  /** Four reverse entries add up to InvMixColumns. */
  lemma ReverseSum(x: Column, a0: bv32, a1: bv32, a2: bv32, a3: bv32)
    requires ColumnOf(a0) == InvMixPart(x.r0) && ColumnOf(a1) == DownOne(InvMixPart(x.r1))
    requires ColumnOf(a2) == DownOne(DownOne(InvMixPart(x.r2)))
    requires ColumnOf(a3) == DownOne(DownOne(DownOne(InvMixPart(x.r3))))
    ensures ColumnOf(Sum4(a0, a1, a2, a3)) == InvMixColumn(x)
  {
    hide Xor32, ColumnOf, Xor, Mul;
    WordXor(a0, a1);
    WordXor(Xor32(a0, a1), a2);
    WordXor(Xor32(Xor32(a0, a1), a2), a3);
  }
}
