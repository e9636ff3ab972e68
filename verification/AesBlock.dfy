/** `aes_crypt_ecb` of aes.c (lines 602-753) and its two round macros. */
module AesBlock {
  import opened Bytes
  import opened GF256
  import opened Fips197
  import opened BlockCipher
  import opened AesTables
  import opened AesKeys

  const AES_ENCRYPT := 1
  const AES_DECRYPT := 0

  function StateOf(x0: bv32, x1: bv32, x2: bv32, x3: bv32): State {
    State(ColumnOf(x0), ColumnOf(x1), ColumnOf(x2), ColumnOf(x3))
  }

  // ----- one word of a round

  /** k ^ a ^ b ^ c ^ d */
  function Sum5(k: bv32, a: bv32, b: bv32, c: bv32, d: bv32): bv32 {
    k ^ a ^ b ^ c ^ d
  }

  lemma Sum5IsSum4(k: bv32, a: bv32, b: bv32, c: bv32, d: bv32)
    ensures ColumnOf(Sum5(k, a, b, c, d)) == AddColumn(ColumnOf(Sum4(a, b, c, d)), ColumnOf(k))
  {
    hide ColumnOf, Sum4, Sum5, Xor32, AddColumn;
    KeyLast(k, a, b, c, d);
    WordXor(Sum4(a, b, c, d), k);
  }

  lemma KeyLast(k: bv32, a: bv32, b: bv32, c: bv32, d: bv32)
    ensures Sum5(k, a, b, c, d) == Xor32(Sum4(a, b, c, d), k)
  {
    assert k ^ a ^ b ^ c ^ d == a ^ b ^ c ^ d ^ k;
  }

  /** The bytes that one output word of a round looks up. */
  function Picked(y0: bv32, y1: bv32, y2: bv32, y3: bv32): Column {
    Column(Byte0(y0), Byte1(y1), Byte2(y2), Byte3(y3))
  }

  /** One line of AES_FROUND. */
  function ForwardLine(t: Tables, k: bv32, y0: bv32, y1: bv32, y2: bv32, y3: bv32): (x: bv32)
    requires t.Ready()
    reads t, t.Arrays()
    ensures ColumnOf(x) == AddColumn(MixColumn(SubColumn(Picked(y0, y1, y2, y3))), ColumnOf(k))
  {
    hide Sum5, Sum4, ColumnOf, AddColumn, MixColumn, SubColumn, Byte0, Byte1, Byte2, Byte3, Forward, DownOne;
    ForwardAt(t, Byte0(y0));
    ForwardAt(t, Byte1(y1));
    ForwardAt(t, Byte2(y2));
    ForwardAt(t, Byte3(y3));
    hide Tables.SboxesReady, Tables.RconReady, Tables.RoundTablesReady;
    ghost var f0, f1, f2, f3 :=
      t.ft0[Byte0(y0) as int], t.ft1[Byte1(y1) as int], t.ft2[Byte2(y2) as int], t.ft3[Byte3(y3) as int];
    ForwardSum(Picked(y0, y1, y2, y3), f0, f1, f2, f3);
    Sum5IsSum4(k, f0, f1, f2, f3);
    Sum5(k, t.ft0[Byte0(y0) as int], t.ft1[Byte1(y1) as int], t.ft2[Byte2(y2) as int], t.ft3[Byte3(y3) as int])
  }

  /** One line of AES_RROUND. */
  function ReverseLine(t: Tables, k: bv32, y0: bv32, y1: bv32, y2: bv32, y3: bv32): (x: bv32)
    requires t.Ready()
    reads t, t.Arrays()
    ensures ColumnOf(x) == AddColumn(InvMixColumn(InvSubColumn(Picked(y0, y1, y2, y3))), ColumnOf(k))
  {
    hide Sum5, Sum4, ColumnOf, AddColumn, InvMixColumn, Byte0, Byte1, Byte2, Byte3, InvMixPart, DownOne, InvSubByte;
    ReverseAt(t, Byte0(y0));
    ReverseAt(t, Byte1(y1));
    ReverseAt(t, Byte2(y2));
    ReverseAt(t, Byte3(y3));
    hide Tables.SboxesReady, Tables.RconReady, Tables.RoundTablesReady;
    ghost var f0, f1, f2, f3 :=
      t.rt0[Byte0(y0) as int], t.rt1[Byte1(y1) as int], t.rt2[Byte2(y2) as int], t.rt3[Byte3(y3) as int];
    ReverseSum(InvSubColumn(Picked(y0, y1, y2, y3)), f0, f1, f2, f3);
    Sum5IsSum4(k, f0, f1, f2, f3);
    Sum5(k, t.rt0[Byte0(y0) as int], t.rt1[Byte1(y1) as int], t.rt2[Byte2(y2) as int], t.rt3[Byte3(y3) as int])
  }

  lemma KeyedScatter(k: bv32, b0: bv8, b1: bv8, b2: bv8, b3: bv8)
    ensures ColumnOf(Xor32(k, Scatter(b0, b1, b2, b3))) == AddColumn(Column(b0, b1, b2, b3), ColumnOf(k))
  {
    hide ColumnOf, Xor32, Scatter, Xor;
    WordXor(k, Scatter(b0, b1, b2, b3));
    ColumnOfScatter(b0, b1, b2, b3);
    var c := ColumnOf(k);
    XorAssoc(c.r0, b0, 0);
    XorAssoc(c.r1, b1, 0);
    XorAssoc(c.r2, b2, 0);
    XorAssoc(c.r3, b3, 0);
  }

  /** One line of the last encryption round: S-box lookups only. */
  function LastForwardLine(t: Tables, k: bv32, y0: bv32, y1: bv32, y2: bv32, y3: bv32): (x: bv32)
    requires t.Ready()
    reads t, t.Arrays()
    ensures ColumnOf(x) == AddColumn(SubColumn(Picked(y0, y1, y2, y3)), ColumnOf(k))
  {
    hide ColumnOf, AddColumn, Xor32, Scatter, SubByte, Byte0, Byte1, Byte2, Byte3, ForwardEntry;
    ForwardAt(t, Byte0(y0));
    ForwardAt(t, Byte1(y1));
    ForwardAt(t, Byte2(y2));
    ForwardAt(t, Byte3(y3));
    hide Tables.SboxesReady, Tables.RconReady, Tables.RoundTablesReady;
    KeyedScatter(k, SubByte(Byte0(y0)), SubByte(Byte1(y1)), SubByte(Byte2(y2)), SubByte(Byte3(y3)));
    Xor32(k, Scatter(t.fsb[Byte0(y0) as int], t.fsb[Byte1(y1) as int], t.fsb[Byte2(y2) as int],
                     t.fsb[Byte3(y3) as int]))
  }

  /** One line of the last decryption round. */
  function LastReverseLine(t: Tables, k: bv32, y0: bv32, y1: bv32, y2: bv32, y3: bv32): (x: bv32)
    requires t.Ready()
    reads t, t.Arrays()
    ensures ColumnOf(x) == AddColumn(InvSubColumn(Picked(y0, y1, y2, y3)), ColumnOf(k))
  {
    hide ColumnOf, AddColumn, Xor32, Scatter, InvSubByte, Byte0, Byte1, Byte2, Byte3, ReverseEntry;
    ReverseAt(t, Byte0(y0));
    ReverseAt(t, Byte1(y1));
    ReverseAt(t, Byte2(y2));
    ReverseAt(t, Byte3(y3));
    hide Tables.SboxesReady, Tables.RconReady, Tables.RoundTablesReady;
    KeyedScatter(k, InvSubByte(Byte0(y0)), InvSubByte(Byte1(y1)), InvSubByte(Byte2(y2)), InvSubByte(Byte3(y3)));
    Xor32(k, Scatter(t.rsb[Byte0(y0) as int], t.rsb[Byte1(y1) as int], t.rsb[Byte2(y2) as int],
                     t.rsb[Byte3(y3) as int]))
  }

  // ----- a whole round

  /** Columns picked along the diagonals are the shifted, substituted state. */
  lemma Diagonals(y0: bv32, y1: bv32, y2: bv32, y3: bv32)
    ensures
      var s := ShiftRows(SubBytes(StateOf(y0, y1, y2, y3)));
      && s.c0 == SubColumn(Picked(y0, y1, y2, y3)) && s.c1 == SubColumn(Picked(y1, y2, y3, y0))
      && s.c2 == SubColumn(Picked(y2, y3, y0, y1)) && s.c3 == SubColumn(Picked(y3, y0, y1, y2))
    ensures
      var s := InvShiftRows(InvSubBytes(StateOf(y0, y1, y2, y3)));
      && s.c0 == InvSubColumn(Picked(y0, y3, y2, y1)) && s.c1 == InvSubColumn(Picked(y1, y0, y3, y2))
      && s.c2 == InvSubColumn(Picked(y2, y1, y0, y3)) && s.c3 == InvSubColumn(Picked(y3, y2, y1, y0))
  {
    hide Byte0, Byte1, Byte2, Byte3, SubByte, InvSubByte;
  }

  /** AES_FROUND, with `rk` the offset of the round key in the context's buffer. */
  method ForwardRound(t: Tables, ctx: Context, rk: nat, y0: bv32, y1: bv32, y2: bv32, y3: bv32)
    returns (x0: bv32, x1: bv32, x2: bv32, x3: bv32)
    requires t.Ready() && ctx.Valid() && rk + 4 <= 68
    ensures t.Ready()
    ensures StateOf(x0, x1, x2, x3) ==
            Add(MixColumns(ShiftRows(SubBytes(StateOf(y0, y1, y2, y3)))), KeyAt(ctx, rk))
  {
    hide ColumnOf, AddColumn, MixColumn, SubBytes, ShiftRows, SubColumn, Picked, ForwardLine, Tables.Ready,
      Tables.Arrays;
    Diagonals(y0, y1, y2, y3);
    x0 := ForwardLine(t, ctx.buf[rk], y0, y1, y2, y3);
    x1 := ForwardLine(t, ctx.buf[rk + 1], y1, y2, y3, y0);
    x2 := ForwardLine(t, ctx.buf[rk + 2], y2, y3, y0, y1);
    x3 := ForwardLine(t, ctx.buf[rk + 3], y3, y0, y1, y2);
  }

  /** AES_RROUND */
  method ReverseRound(t: Tables, ctx: Context, rk: nat, y0: bv32, y1: bv32, y2: bv32, y3: bv32)
    returns (x0: bv32, x1: bv32, x2: bv32, x3: bv32)
    requires t.Ready() && ctx.Valid() && rk + 4 <= 68
    ensures t.Ready()
    ensures StateOf(x0, x1, x2, x3) ==
            Add(InvMixColumns(InvShiftRows(InvSubBytes(StateOf(y0, y1, y2, y3)))), KeyAt(ctx, rk))
  {
    hide ColumnOf, AddColumn, InvMixColumn, InvSubBytes, InvShiftRows, InvSubColumn, Picked, ReverseLine,
      Tables.Ready, Tables.Arrays;
    Diagonals(y0, y1, y2, y3);
    x0 := ReverseLine(t, ctx.buf[rk], y0, y3, y2, y1);
    x1 := ReverseLine(t, ctx.buf[rk + 1], y1, y0, y3, y2);
    x2 := ReverseLine(t, ctx.buf[rk + 2], y2, y1, y0, y3);
    x3 := ReverseLine(t, ctx.buf[rk + 3], y3, y2, y1, y0);
  }

  method LastForwardRound(t: Tables, ctx: Context, rk: nat, y0: bv32, y1: bv32, y2: bv32, y3: bv32)
    returns (x0: bv32, x1: bv32, x2: bv32, x3: bv32)
    requires t.Ready() && ctx.Valid() && rk + 4 <= 68
    ensures t.Ready()
    ensures StateOf(x0, x1, x2, x3) == Add(ShiftRows(SubBytes(StateOf(y0, y1, y2, y3))), KeyAt(ctx, rk))
  {
    hide ColumnOf, AddColumn, SubBytes, ShiftRows, SubColumn, Picked, LastForwardLine, Tables.Ready, Tables.Arrays;
    Diagonals(y0, y1, y2, y3);
    x0 := LastForwardLine(t, ctx.buf[rk], y0, y1, y2, y3);
    x1 := LastForwardLine(t, ctx.buf[rk + 1], y1, y2, y3, y0);
    x2 := LastForwardLine(t, ctx.buf[rk + 2], y2, y3, y0, y1);
    x3 := LastForwardLine(t, ctx.buf[rk + 3], y3, y0, y1, y2);
  }

  method LastReverseRound(t: Tables, ctx: Context, rk: nat, y0: bv32, y1: bv32, y2: bv32, y3: bv32)
    returns (x0: bv32, x1: bv32, x2: bv32, x3: bv32)
    requires t.Ready() && ctx.Valid() && rk + 4 <= 68
    ensures t.Ready()
    ensures StateOf(x0, x1, x2, x3) == Add(InvShiftRows(InvSubBytes(StateOf(y0, y1, y2, y3))), KeyAt(ctx, rk))
  {
    hide ColumnOf, AddColumn, InvSubBytes, InvShiftRows, InvSubColumn, Picked, LastReverseLine, Tables.Ready,
      Tables.Arrays;
    Diagonals(y0, y1, y2, y3);
    x0 := LastReverseLine(t, ctx.buf[rk], y0, y3, y2, y1);
    x1 := LastReverseLine(t, ctx.buf[rk + 1], y1, y0, y3, y2);
    x2 := LastReverseLine(t, ctx.buf[rk + 2], y2, y1, y0, y3);
    x3 := LastReverseLine(t, ctx.buf[rk + 3], y3, y2, y1, y0);
  }

  /** The four words of the buffer from offset `rk`. */
  ghost function KeyAt(ctx: Context, rk: nat): State
    requires ctx.Valid() && rk + 4 <= 68
    reads ctx.buf
  {
    StateOf(ctx.buf[rk], ctx.buf[rk + 1], ctx.buf[rk + 2], ctx.buf[rk + 3])
  }

  lemma KeyAtIsRoundKey(ctx: Context, r: nat, nr: nat)
    requires ctx.Valid() && r <= nr <= 16
    ensures KeyAt(ctx, 4 * r) == RoundKey(ctx.Words(4 * nr + 4), r)
  {
    hide ColumnOf;
  }

  // ----- aes_crypt_ecb

  /** What `aes_crypt_ecb` makes of a block under schedule `w`: any mode but AES_DECRYPT encrypts. */
  ghost function CryptBlock(w: Schedule, nr: nat, mode: int, b: Block): Block
    requires 1 <= nr && 4 * nr + 4 <= |w|
  {
    ToBytes(if mode == AES_DECRYPT then EqInvCipher(w, nr, FromBytes(b)) else Cipher(w, nr, FromBytes(b)))
  }

  predicate IsRoundCount(nr: int) { nr == 10 || nr == 12 || nr == 14 }

  method EncryptWords(t: Tables, ctx: Context, a0: bv32, a1: bv32, a2: bv32, a3: bv32)
    returns (x0: bv32, x1: bv32, x2: bv32, x3: bv32)
    requires t.Ready() && ctx.Valid() && IsRoundCount(ctx.nr)
    ensures t.Ready()
    ensures StateOf(x0, x1, x2, x3) == Cipher(ctx.Words(4 * ctx.nr + 4), ctx.nr, StateOf(a0, a1, a2, a3))
  {
    hide StateOf, Add, MixColumns, ShiftRows, SubBytes, RoundKey, KeyAt, Tables.Ready, Tables.Arrays;
    var nr := ctx.nr;
    ghost var w, s := ctx.Words(4 * nr + 4), StateOf(a0, a1, a2, a3);
    x0, x1, x2, x3 := AddFirstKey(t, ctx, a0, a1, a2, a3);
    KeyAtIsRoundKey(ctx, 0, nr);
    var rk := 4;
    var i := nr / 2 - 1;
    var y0, y1, y2, y3;
    while i > 0
      invariant 0 <= i <= nr / 2 - 1 && rk == 4 * (nr - 1 - 2 * i) && t.Ready()
      invariant StateOf(x0, x1, x2, x3) == Rounds(w, nr - 2 - 2 * i, s)
    {
      KeyAtIsRoundKey(ctx, nr - 1 - 2 * i, nr);
      KeyAtIsRoundKey(ctx, nr - 2 * i, nr);
      y0, y1, y2, y3 := ForwardRound(t, ctx, rk, x0, x1, x2, x3);
      x0, x1, x2, x3 := ForwardRound(t, ctx, rk + 4, y0, y1, y2, y3);
      rk, i := rk + 8, i - 1;
    }
    KeyAtIsRoundKey(ctx, nr - 1, nr);
    KeyAtIsRoundKey(ctx, nr, nr);
    y0, y1, y2, y3 := ForwardRound(t, ctx, rk, x0, x1, x2, x3);
    x0, x1, x2, x3 := LastForwardRound(t, ctx, rk + 4, y0, y1, y2, y3);
  }

  method DecryptWords(t: Tables, ctx: Context, a0: bv32, a1: bv32, a2: bv32, a3: bv32)
    returns (x0: bv32, x1: bv32, x2: bv32, x3: bv32)
    requires t.Ready() && ctx.Valid() && IsRoundCount(ctx.nr)
    ensures t.Ready()
    ensures StateOf(x0, x1, x2, x3) == EqInvCipher(ctx.Words(4 * ctx.nr + 4), ctx.nr, StateOf(a0, a1, a2, a3))
  {
    hide StateOf, Add, InvMixColumns, InvShiftRows, InvSubBytes, RoundKey, KeyAt, Tables.Ready, Tables.Arrays;
    var nr := ctx.nr;
    ghost var w, s := ctx.Words(4 * nr + 4), StateOf(a0, a1, a2, a3);
    x0, x1, x2, x3 := AddFirstKey(t, ctx, a0, a1, a2, a3);
    KeyAtIsRoundKey(ctx, 0, nr);
    var rk := 4;
    var i := nr / 2 - 1;
    var y0, y1, y2, y3;
    while i > 0
      invariant 0 <= i <= nr / 2 - 1 && rk == 4 * (nr - 1 - 2 * i) && t.Ready()
      invariant StateOf(x0, x1, x2, x3) == EqInvRounds(w, nr - 2 - 2 * i, s)
    {
      KeyAtIsRoundKey(ctx, nr - 1 - 2 * i, nr);
      KeyAtIsRoundKey(ctx, nr - 2 * i, nr);
      y0, y1, y2, y3 := ReverseRound(t, ctx, rk, x0, x1, x2, x3);
      x0, x1, x2, x3 := ReverseRound(t, ctx, rk + 4, y0, y1, y2, y3);
      rk, i := rk + 8, i - 1;
    }
    KeyAtIsRoundKey(ctx, nr - 1, nr);
    KeyAtIsRoundKey(ctx, nr, nr);
    y0, y1, y2, y3 := ReverseRound(t, ctx, rk, x0, x1, x2, x3);
    x0, x1, x2, x3 := LastReverseRound(t, ctx, rk + 4, y0, y1, y2, y3);
  }

  /** X0 ^= *RK++ and so on, before the first round. */
  method AddFirstKey(ghost t: Tables, ctx: Context, a0: bv32, a1: bv32, a2: bv32, a3: bv32)
    returns (x0: bv32, x1: bv32, x2: bv32, x3: bv32)
    requires t.Ready() && ctx.Valid()
    ensures t.Ready()
    ensures StateOf(x0, x1, x2, x3) == Add(StateOf(a0, a1, a2, a3), KeyAt(ctx, 0))
  {
    hide ColumnOf, AddColumn, Xor32;
    WordXor(a0, ctx.buf[0]);
    WordXor(a1, ctx.buf[1]);
    WordXor(a2, ctx.buf[2]);
    WordXor(a3, ctx.buf[3]);
    x0 := Xor32(a0, ctx.buf[0]);
    x1 := Xor32(a1, ctx.buf[1]);
    x2 := Xor32(a2, ctx.buf[2]);
    x3 := Xor32(a3, ctx.buf[3]);
  }

  /** GET_ULONG_LE */
  function GetWord(a: array<bv8>, i: nat): bv32
    requires i + 4 <= a.Length
    reads a
  {
    Word(a[i], a[i + 1], a[i + 2], a[i + 3])
  }

  /** Nothing but the `n` bytes from offset `i` has changed. */
  twostate predicate OthersUnchanged(a: array<bv8>, i: nat, n: nat)
    reads a
  {
    forall k :: 0 <= k < a.Length && (k < i || i + n <= k) ==> a[k] == old(a[k])
  }

  /** PUT_ULONG_LE */
  method PutWord(n: bv32, a: array<bv8>, i: nat)
    requires i + 4 <= a.Length
    modifies a
    ensures a[i] == Byte0(n) && a[i + 1] == Byte1(n) && a[i + 2] == Byte2(n) && a[i + 3] == Byte3(n)
    ensures OthersUnchanged(a, i, 4)
  {
    hide Byte0, Byte1, Byte2, Byte3;
    a[i] := Byte0(n);
    a[i + 1] := Byte1(n);
    a[i + 2] := Byte2(n);
    a[i + 3] := Byte3(n);
  }

  lemma LoadedState(a: array<bv8>, i: nat)
    requires i + 16 <= a.Length
    ensures StateOf(GetWord(a, i), GetWord(a, i + 4), GetWord(a, i + 8), GetWord(a, i + 12)) == FromBytes(a[i..i + 16])
  {
    hide ColumnOf, Word;
    ColumnOfWord(a[i], a[i + 1], a[i + 2], a[i + 3]);
    ColumnOfWord(a[i + 4], a[i + 5], a[i + 6], a[i + 7]);
    ColumnOfWord(a[i + 8], a[i + 9], a[i + 10], a[i + 11]);
    ColumnOfWord(a[i + 12], a[i + 13], a[i + 14], a[i + 15]);
  }

  method StoreState(x0: bv32, x1: bv32, x2: bv32, x3: bv32, a: array<bv8>, i: nat)
    requires i + 16 <= a.Length
    modifies a
    ensures a[i..i + 16] == ToBytes(StateOf(x0, x1, x2, x3))
    ensures OthersUnchanged(a, i, 16)
  {
    hide Byte0, Byte1, Byte2, Byte3;
    PutWord(x0, a, i);
    PutWord(x1, a, i + 4);
    PutWord(x2, a, i + 8);
    PutWord(x3, a, i + 12);
    SixteenBytes(a, i);
  }

  lemma SixteenBytes(a: array<bv8>, i: nat)
    requires i + 16 <= a.Length
    ensures a[i..i + 16] ==
            [a[i], a[i + 1], a[i + 2], a[i + 3], a[i + 4], a[i + 5], a[i + 6], a[i + 7],
             a[i + 8], a[i + 9], a[i + 10], a[i + 11], a[i + 12], a[i + 13], a[i + 14], a[i + 15]]
  {}

  /** aes_crypt_ecb, on the 16 bytes at `inOff` of `input` and at `outOff` of `output`, which may be the same. */
  method CryptEcb(t: Tables, ctx: Context, mode: int, input: array<bv8>, inOff: nat, output: array<bv8>, outOff: nat)
    returns (ret: int)
    requires t.Ready() && ctx.Valid() && IsRoundCount(ctx.nr)
    requires inOff + 16 <= input.Length && outOff + 16 <= output.Length
    requires output !in t.Arrays() && (output as object) != ctx.buf
    modifies output
    ensures t.Ready() && ret == 0
    ensures output[outOff..outOff + 16] ==
            CryptBlock(old(ctx.Words(4 * ctx.nr + 4)), ctx.nr, mode, old(input[inOff..inOff + 16]))
    ensures OthersUnchanged(output, outOff, 16)
  {
    hide StateOf, FromBytes, ToBytes, Cipher, EqInvCipher, GetWord, Tables.Ready, Context.Words;
    LoadedState(input, inOff);
    var x0, x1, x2, x3 := GetWord(input, inOff), GetWord(input, inOff + 4), GetWord(input, inOff + 8),
      GetWord(input, inOff + 12);
    if mode == AES_DECRYPT {
      x0, x1, x2, x3 := DecryptWords(t, ctx, x0, x1, x2, x3);
    } else {
      x0, x1, x2, x3 := EncryptWords(t, ctx, x0, x1, x2, x3);
    }
    assert (output as object) != t;
    StoreState(x0, x1, x2, x3, output, outOff);
    ret := 0;
  }
}
