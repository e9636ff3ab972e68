/** Key schedules of aes.c: `aes_setkey_enc` and `aes_setkey_dec` (lines 441-600). */
module AesKeys {
  import opened Bytes
  import opened GF256
  import opened Fips197
  import opened BlockCipher
  import opened AesTables

  const INVALID_KEY_LENGTH := -0x0020

  /** aes_context; its `rk` pointer always addresses the start of `buf`. */
  class Context {
    var nr: int
    const buf: array<bv32>

    constructor ()
      ensures fresh(buf) && Valid()
    {
      nr := 0;
      buf := new bv32[68];
    }

    predicate Valid() {
      buf.Length == 68
    }

    /** The first `n` words of the schedule, as columns. */
    ghost function Words(n: nat): (w: Schedule)
      requires Valid() && n <= 68
      reads buf
      ensures |w| == n
      ensures forall k :: 0 <= k < n ==> w[k] == ColumnOf(buf[k])
    {
      seq(n, k requires 0 <= k < n reads buf => ColumnOf(buf[k]))
    }

    /** Every word that the block cipher reads is the word of the FIPS 197 key expansion. */
    ghost predicate ExpandedTo(key: seq<bv8>, n: nat)
      requires Valid() && IsKey(key) && n <= 68
      reads buf
    {
      forall k :: 0 <= k < n ==> ColumnOf(buf[k]) == KeyWord(key, k)
    }

    /** RK[nk] = RK[0] ^ RCON[i] ^ the substituted, rotated last word. */
    method StoreFirst(t: Tables, ghost key: seq<bv8>, rk: nat, nk: nat, i: nat)
      requires t.Ready() && Valid() && IsKey(key) && buf !in t.Arrays()
      requires 0 < nk && rk + nk < 68 && i < 10 && ExpandedTo(key, rk + nk)
      requires KeyWord(key, rk + nk) ==
               AddColumn(KeyWord(key, rk), AddColumn(SubColumn(RotWord(KeyWord(key, rk + nk - 1))), Rcon(i)))
      modifies buf
      ensures t.Ready() && ExpandedTo(key, rk + nk + 1)
    {
      hide ColumnOf, AddColumn, SubColumn, RotWord, Rcon, KeyWord, SubRot, Xor32, Tables.Ready, Tables.Arrays;
      RconAt(t, i);
      GroupStart(t, buf[rk], t.rcon[i], buf[rk + nk - 1]);
      buf[rk + nk] := Xor32(Xor32(buf[rk], t.rcon[i]), SubRot(t, buf[rk + nk - 1]));
    }

    /** RK[nk] = RK[0] ^ RK[nk - 1] */
    method StoreNext(ghost t: Tables, ghost key: seq<bv8>, rk: nat, nk: nat)
      requires t.Ready() && buf !in t.Arrays()
      requires Valid() && IsKey(key) && 0 < nk && rk + nk < 68 && ExpandedTo(key, rk + nk)
      requires KeyWord(key, rk + nk) == AddColumn(KeyWord(key, rk), KeyWord(key, rk + nk - 1))
      modifies buf
      ensures t.Ready() && ExpandedTo(key, rk + nk + 1)
    {
      hide ColumnOf, AddColumn, KeyWord, Xor32, Tables.Ready, Tables.Arrays;
      WordXor(buf[rk], buf[rk + nk - 1]);
      buf[rk + nk] := Xor32(buf[rk], buf[rk + nk - 1]);
    }

    /** RK[12] = RK[4] ^ the substituted RK[11], for 256-bit keys only. */
    method StoreMiddle(t: Tables, ghost key: seq<bv8>, rk: nat)
      requires t.Ready() && Valid() && IsKey(key) && buf !in t.Arrays() && rk + 8 < 68 && ExpandedTo(key, rk + 8)
      requires KeyWord(key, rk + 8) == AddColumn(KeyWord(key, rk), SubColumn(KeyWord(key, rk + 7)))
      modifies buf
      ensures t.Ready() && ExpandedTo(key, rk + 9)
    {
      hide ColumnOf, AddColumn, SubColumn, KeyWord, SubPlain, Xor32, Tables.Ready, Tables.Arrays;
      WordXor(buf[rk], SubPlain(t, buf[rk + 7]));
      buf[rk + 8] := Xor32(buf[rk], SubPlain(t, buf[rk + 7]));
    }

    ghost predicate EncryptsWith(key: seq<bv8>)
      reads this, buf
    {
      Valid() && IsKey(key) && nr == RoundCount(key) && Words(4 * nr + 4) == KeyExpansion(key)
    }

    ghost predicate DecryptsWith(key: seq<bv8>)
      reads this, buf
    {
      && Valid() && IsKey(key) && nr == RoundCount(key)
      && Words(4 * nr + 4) == DecSchedule(KeyExpansion(key), nr)
    }
  }

  // ----- the recurrence of section 5.2, case by case

  lemma PlainWord(key: seq<bv8>, i: nat)
    requires IsKey(key) && i >= KeyWords(key)
    requires i % KeyWords(key) != 0 && !(KeyWords(key) == 8 && i % 8 == 4)
    ensures KeyWord(key, i) == AddColumn(KeyWord(key, i - KeyWords(key)), KeyWord(key, i - 1))
  {
    hide AddColumn, SubColumn;
  }

  lemma FirstWord(key: seq<bv8>, q: nat)
    requires IsKey(key) && q >= 1
    ensures
      var nk := KeyWords(key);
      KeyWord(key, nk * q) ==
      AddColumn(KeyWord(key, nk * q - nk), AddColumn(SubColumn(RotWord(KeyWord(key, nk * q - 1))), Rcon(q - 1)))
  {
    hide AddColumn, SubColumn, RotWord, Rcon;
    var nk := KeyWords(key);
    assert nk == 4 || nk == 6 || nk == 8;
    assert (nk * q) % nk == 0 && (nk * q) / nk == q;
  }

  lemma MiddleWord(key: seq<bv8>, q: nat)
    requires |key| == 32 && q >= 1
    ensures KeyWord(key, 8 * q + 4) == AddColumn(KeyWord(key, 8 * q - 4), SubColumn(KeyWord(key, 8 * q + 3)))
  {
    hide AddColumn, SubColumn;
    assert (8 * q + 4) % 8 == 4;
  }

  // ----- S-box lookups on whole words

  /** Four substituted bytes, xor-ed into their places. */
  function Scatter(b0: bv8, b1: bv8, b2: bv8, b3: bv8): bv32 {
    (b0 as bv32) ^ (b1 as bv32 << 8) ^ (b2 as bv32 << 16) ^ (b3 as bv32 << 24)
  }

  lemma ColumnOfScatter(b0: bv8, b1: bv8, b2: bv8, b3: bv8)
    ensures ColumnOf(Scatter(b0, b1, b2, b3)) == Column(b0, b1, b2, b3)
  {}

  function SubRot(t: Tables, w: bv32): (r: bv32)
    requires t.Ready()
    reads t, t.Arrays()
    ensures ColumnOf(r) == SubColumn(RotWord(ColumnOf(w)))
  {
    hide SubByte, Byte0, Byte1, Byte2, Byte3, Scatter;
    SubLookups(t, ColumnOf(w));
    ColumnOfScatter(t.fsb[Byte1(w) as int], t.fsb[Byte2(w) as int], t.fsb[Byte3(w) as int], t.fsb[Byte0(w) as int]);
    Scatter(t.fsb[Byte1(w) as int], t.fsb[Byte2(w) as int], t.fsb[Byte3(w) as int], t.fsb[Byte0(w) as int])
  }

  function SubPlain(t: Tables, w: bv32): (r: bv32)
    requires t.Ready()
    reads t, t.Arrays()
    ensures ColumnOf(r) == SubColumn(ColumnOf(w))
  {
    hide SubByte, Byte0, Byte1, Byte2, Byte3, Scatter;
    SubLookups(t, ColumnOf(w));
    ColumnOfScatter(t.fsb[Byte0(w) as int], t.fsb[Byte1(w) as int], t.fsb[Byte2(w) as int], t.fsb[Byte3(w) as int]);
    Scatter(t.fsb[Byte0(w) as int], t.fsb[Byte1(w) as int], t.fsb[Byte2(w) as int], t.fsb[Byte3(w) as int])
  }

  lemma SubLookups(t: Tables, c: Column)
    requires t.Ready()
    ensures t.fsb[c.r0 as int] == SubByte(c.r0) && t.fsb[c.r1 as int] == SubByte(c.r1)
    ensures t.fsb[c.r2 as int] == SubByte(c.r2) && t.fsb[c.r3 as int] == SubByte(c.r3)
  {
    hide SubByte, InvSubByte, ByteOf;
    ByteOfIndex(c.r0);
    ByteOfIndex(c.r1);
    ByteOfIndex(c.r2);
    ByteOfIndex(c.r3);
  }

  lemma RconAt(t: Tables, i: int)
    requires t.Ready() && 0 <= i < 10
    ensures t.Shape() && ColumnOf(t.rcon[i]) == Rcon(i)
  {}

  lemma AddAssoc(a: Column, b: Column, c: Column)
    ensures AddColumn(AddColumn(a, b), c) == AddColumn(a, AddColumn(c, b))
  {
    hide Xor;
    XorAssoc(a.r0, b.r0, c.r0);
    XorAssoc(a.r1, b.r1, c.r1);
    XorAssoc(a.r2, b.r2, c.r2);
    XorAssoc(a.r3, b.r3, c.r3);
    XorAssoc(b.r0, c.r0, 0);
    XorAssoc(b.r1, c.r1, 0);
    XorAssoc(b.r2, c.r2, 0);
    XorAssoc(b.r3, c.r3, 0);
  }

  /** The word that starts a new group of the schedule. */
  lemma GroupStart(t: Tables, a: bv32, r: bv32, w: bv32)
    requires t.Ready()
    ensures ColumnOf(Xor32(Xor32(a, r), SubRot(t, w))) ==
            AddColumn(ColumnOf(a), AddColumn(SubColumn(RotWord(ColumnOf(w))), ColumnOf(r)))
  {
    hide ColumnOf, AddColumn, SubColumn, RotWord, Xor32;
    WordXor(a, r);
    WordXor(Xor32(a, r), SubRot(t, w));
    AddAssoc(ColumnOf(a), ColumnOf(r), ColumnOf(SubRot(t, w)));
  }

  // ----- aes_setkey_enc: the three unrolled loops

  /** The words that one pass of the 128-bit loop stores. */
  lemma Group128(key: seq<bv8>, i: nat, rk: nat)
    requires |key| == 16 && rk == 4 * i
    ensures KeyWord(key, rk + 4) ==
            AddColumn(KeyWord(key, rk), AddColumn(SubColumn(RotWord(KeyWord(key, rk + 3))), Rcon(i)))
    ensures KeyWord(key, rk + 5) == AddColumn(KeyWord(key, rk + 1), KeyWord(key, rk + 4))
    ensures KeyWord(key, rk + 6) == AddColumn(KeyWord(key, rk + 2), KeyWord(key, rk + 5))
    ensures KeyWord(key, rk + 7) == AddColumn(KeyWord(key, rk + 3), KeyWord(key, rk + 6))
  {
    hide AddColumn, SubColumn, RotWord, Rcon, KeyWord;
    FirstWord(key, i + 1);
    PlainWord(key, rk + 5);
    PlainWord(key, rk + 6);
    PlainWord(key, rk + 7);
  }

  method Expand128(t: Tables, ctx: Context, ghost key: seq<bv8>)
    requires t.Ready() && ctx.Valid() && |key| == 16 && ctx.buf !in t.Arrays() && ctx.ExpandedTo(key, 4)
    modifies ctx.buf
    ensures t.Ready() && ctx.ExpandedTo(key, 44)
  {
    hide ColumnOf, AddColumn, SubColumn, RotWord, Rcon, KeyWord, Tables.Ready, Tables.Arrays, Context.ExpandedTo;
    var i, rk := 0, 0;
    while i < 10
      invariant 0 <= i <= 10 && rk == 4 * i
      invariant t.Ready() && ctx.ExpandedTo(key, rk + 4)
    {
      Group128(key, i, rk);
      ctx.StoreFirst(t, key, rk, 4, i);
      ctx.StoreNext(t, key, rk + 1, 4);
      ctx.StoreNext(t, key, rk + 2, 4);
      ctx.StoreNext(t, key, rk + 3, 4);
      i, rk := i + 1, rk + 4;
    }
  }

  /** The words that one pass of the 192-bit loop stores. */
  lemma Group192(key: seq<bv8>, i: nat, rk: nat)
    requires |key| == 24 && rk == 6 * i
    ensures KeyWord(key, rk + 6) ==
            AddColumn(KeyWord(key, rk), AddColumn(SubColumn(RotWord(KeyWord(key, rk + 5))), Rcon(i)))
    ensures KeyWord(key, rk + 7) == AddColumn(KeyWord(key, rk + 1), KeyWord(key, rk + 6))
    ensures KeyWord(key, rk + 8) == AddColumn(KeyWord(key, rk + 2), KeyWord(key, rk + 7))
    ensures KeyWord(key, rk + 9) == AddColumn(KeyWord(key, rk + 3), KeyWord(key, rk + 8))
    ensures KeyWord(key, rk + 10) == AddColumn(KeyWord(key, rk + 4), KeyWord(key, rk + 9))
    ensures KeyWord(key, rk + 11) == AddColumn(KeyWord(key, rk + 5), KeyWord(key, rk + 10))
  {
    hide AddColumn, SubColumn, RotWord, Rcon, KeyWord;
    FirstWord(key, i + 1);
    PlainWord(key, rk + 7);
    PlainWord(key, rk + 8);
    PlainWord(key, rk + 9);
    PlainWord(key, rk + 10);
    PlainWord(key, rk + 11);
  }

  method Expand192(t: Tables, ctx: Context, ghost key: seq<bv8>)
    requires t.Ready() && ctx.Valid() && |key| == 24 && ctx.buf !in t.Arrays() && ctx.ExpandedTo(key, 6)
    modifies ctx.buf
    ensures t.Ready() && ctx.ExpandedTo(key, 54)
  {
    hide ColumnOf, AddColumn, SubColumn, RotWord, Rcon, KeyWord, Tables.Ready, Tables.Arrays, Context.ExpandedTo;
    var i, rk := 0, 0;
    while i < 8
      invariant 0 <= i <= 8 && rk == 6 * i
      invariant t.Ready() && ctx.ExpandedTo(key, rk + 6)
    {
      Group192(key, i, rk);
      ctx.StoreFirst(t, key, rk, 6, i);
      ctx.StoreNext(t, key, rk + 1, 6);
      ctx.StoreNext(t, key, rk + 2, 6);
      ctx.StoreNext(t, key, rk + 3, 6);
      ctx.StoreNext(t, key, rk + 4, 6);
      ctx.StoreNext(t, key, rk + 5, 6);
      i, rk := i + 1, rk + 6;
    }
  }

  /** The words that one pass of the 256-bit loop stores. */
  lemma Group256(key: seq<bv8>, i: nat, rk: nat)
    requires |key| == 32 && rk == 8 * i
    ensures KeyWord(key, rk + 8) ==
            AddColumn(KeyWord(key, rk), AddColumn(SubColumn(RotWord(KeyWord(key, rk + 7))), Rcon(i)))
    ensures KeyWord(key, rk + 9) == AddColumn(KeyWord(key, rk + 1), KeyWord(key, rk + 8))
    ensures KeyWord(key, rk + 10) == AddColumn(KeyWord(key, rk + 2), KeyWord(key, rk + 9))
    ensures KeyWord(key, rk + 11) == AddColumn(KeyWord(key, rk + 3), KeyWord(key, rk + 10))
    ensures KeyWord(key, rk + 12) == AddColumn(KeyWord(key, rk + 4), SubColumn(KeyWord(key, rk + 11)))
    ensures KeyWord(key, rk + 13) == AddColumn(KeyWord(key, rk + 5), KeyWord(key, rk + 12))
    ensures KeyWord(key, rk + 14) == AddColumn(KeyWord(key, rk + 6), KeyWord(key, rk + 13))
    ensures KeyWord(key, rk + 15) == AddColumn(KeyWord(key, rk + 7), KeyWord(key, rk + 14))
  {
    hide AddColumn, SubColumn, RotWord, Rcon, KeyWord;
    FirstWord(key, i + 1);
    PlainWord(key, rk + 9);
    PlainWord(key, rk + 10);
    PlainWord(key, rk + 11);
    MiddleWord(key, i + 1);
    PlainWord(key, rk + 13);
    PlainWord(key, rk + 14);
    PlainWord(key, rk + 15);
  }

  method Expand256(t: Tables, ctx: Context, ghost key: seq<bv8>)
    requires t.Ready() && ctx.Valid() && |key| == 32 && ctx.buf !in t.Arrays() && ctx.ExpandedTo(key, 8)
    modifies ctx.buf
    ensures t.Ready() && ctx.ExpandedTo(key, 64)
  {
    hide ColumnOf, AddColumn, SubColumn, RotWord, Rcon, KeyWord, Tables.Ready, Tables.Arrays, Context.ExpandedTo;
    var i, rk := 0, 0;
    while i < 7
      invariant 0 <= i <= 7 && rk == 8 * i
      invariant t.Ready() && ctx.ExpandedTo(key, rk + 8)
    {
      Group256(key, i, rk);
      ctx.StoreFirst(t, key, rk, 8, i);
      ctx.StoreNext(t, key, rk + 1, 8);
      ctx.StoreNext(t, key, rk + 2, 8);
      ctx.StoreNext(t, key, rk + 3, 8);
      ctx.StoreMiddle(t, key, rk + 4);
      ctx.StoreNext(t, key, rk + 5, 8);
      ctx.StoreNext(t, key, rk + 6, 8);
      ctx.StoreNext(t, key, rk + 7, 8);
      i, rk := i + 1, rk + 8;
    }
  }

  /** The key bits that the switch statements accept. */
  predicate IsKeySize(keysize: int) { keysize in {128, 192, 256} }

  method LoadKey(ctx: Context, key: array<bv8>, nk: nat)
    requires ctx.Valid() && nk in {4, 6, 8} && 4 * nk <= key.Length
    modifies ctx.buf
    ensures ctx.ExpandedTo(key[..4 * nk], nk)
  {
    hide ColumnOf, Word;
    ghost var k := key[..4 * nk];
    var i := 0;
    while i < nk
      invariant 0 <= i <= nk && ctx.ExpandedTo(k, i)
    {
      ColumnOfWord(key[4 * i], key[4 * i + 1], key[4 * i + 2], key[4 * i + 3]);
      ctx.buf[i] := Word(key[4 * i], key[4 * i + 1], key[4 * i + 2], key[4 * i + 3]);
      i := i + 1;
    }
  }

  lemma WordsAreExpansion(ctx: Context, key: seq<bv8>, n: nat)
    requires ctx.Valid() && IsKey(key) && 4 * RoundCount(key) + 4 <= n <= 68 && ctx.ExpandedTo(key, n)
    ensures ctx.Words(4 * RoundCount(key) + 4) == KeyExpansion(key)
  {
    hide ColumnOf, KeyWord;
  }

  /** The three key sizes of FIPS 197, with their round counts. */
  lemma SizeOfKey(key: seq<bv8>, keysize: int)
    requires keysize == 8 * |key|
    ensures IsKeySize(keysize) <==> IsKey(key)
    ensures IsKey(key) ==> keysize in {128, 192, 256} && KeyWords(key) == keysize / 32
    ensures IsKey(key) ==> RoundCount(key) == if keysize == 128 then 10 else if keysize == 192 then 12 else 14
  {}

  /** aes_setkey_enc */
  method SetKeyEnc(t: Tables, ctx: Context, key: array<bv8>, keysize: int) returns (ret: int)
    requires t.Valid() && ctx.Valid() && ctx.buf !in t.Arrays() && key !in t.Arrays()
    requires IsKeySize(keysize) ==> keysize <= 8 * key.Length
    modifies t, t.Arrays(), ctx, ctx.buf
    ensures t.Ready()
    ensures ret == if IsKeySize(keysize) then 0 else INVALID_KEY_LENGTH
    ensures ret == 0 ==> ctx.EncryptsWith(key[..keysize / 8])
    ensures ret != 0 ==> unchanged(ctx) && unchanged(ctx.buf)
  {
    t.Init();
    hide Tables.Ready, Tables.Valid, Tables.Arrays, Context.EncryptsWith;
    ret := LoadAndExpand(t, ctx, key, keysize);
  }

  /** aes_setkey_enc, once the tables are there. */
  method LoadAndExpand(t: Tables, ctx: Context, key: array<bv8>, keysize: int) returns (ret: int)
    requires t.Ready() && ctx.Valid() && ctx.buf !in t.Arrays()
    requires IsKeySize(keysize) ==> keysize <= 8 * key.Length
    modifies ctx, ctx.buf
    ensures t.Ready()
    ensures ret == if IsKeySize(keysize) then 0 else INVALID_KEY_LENGTH
    ensures ret == 0 ==> ctx.EncryptsWith(key[..keysize / 8])
    ensures ret != 0 ==> unchanged(ctx) && unchanged(ctx.buf)
  {
    hide Tables.Ready, Context.EncryptsWith, Context.ExpandedTo, IsKey, KeyWords, RoundCount;
    match keysize {
      case 128 => ctx.nr := 10;
      case 192 => ctx.nr := 12;
      case 256 => ctx.nr := 14;
      case _ => return INVALID_KEY_LENGTH;
    }
    SizeOfKey(key[..keysize / 8], keysize);
    LoadKey(ctx, key, keysize / 32);
    ExpandLoaded(t, ctx, key[..keysize / 8]);
    ret := 0;
  }

  /** The switch on the number of rounds. */
  method ExpandLoaded(t: Tables, ctx: Context, ghost key: seq<bv8>)
    requires t.Ready() && ctx.Valid() && ctx.buf !in t.Arrays()
    requires IsKey(key) && ctx.nr == RoundCount(key) && ctx.ExpandedTo(key, KeyWords(key))
    modifies ctx.buf
    ensures t.Ready() && ctx.EncryptsWith(key)
  {
    hide KeyWord, KeyExpansion, ColumnOf, Tables.Ready, Tables.Arrays, Context.ExpandedTo, Context.Words;
    match ctx.nr {
      case 10 =>
        Expand128(t, ctx, key);
        WordsAreExpansion(ctx, key, 44);
      case 12 =>
        Expand192(t, ctx, key);
        WordsAreExpansion(ctx, key, 54);
      case _ =>
        Expand256(t, ctx, key);
        WordsAreExpansion(ctx, key, 64);
    }
  }

  // ----- aes_setkey_dec

  /** The four lookups that apply InvMixColumns to one round-key word. */
  function InvMixLookup(t: Tables, w: bv32): (r: bv32)
    requires t.Ready()
    reads t, t.Arrays()
    ensures ColumnOf(r) == InvMixColumn(ColumnOf(w))
  {
    InvMixLookupCorrect(t, w);
    hide ColumnOf, InvMixColumn, Sum4, Byte0, Byte1, Byte2, Byte3;
    Sum4(t.rt0[t.fsb[Byte0(w) as int] as int], t.rt1[t.fsb[Byte1(w) as int] as int],
         t.rt2[t.fsb[Byte2(w) as int] as int], t.rt3[t.fsb[Byte3(w) as int] as int])
  }

  lemma InvMixLookupCorrect(t: Tables, w: bv32)
    requires t.Ready()
    ensures ColumnOf(Sum4(t.rt0[t.fsb[Byte0(w) as int] as int], t.rt1[t.fsb[Byte1(w) as int] as int],
                          t.rt2[t.fsb[Byte2(w) as int] as int], t.rt3[t.fsb[Byte3(w) as int] as int]))
            == InvMixColumn(ColumnOf(w))
  {
    hide Byte0, Byte1, Byte2, Byte3, SubByte, InvSubByte, Sum4, InvMixColumn, DownOne, InvMixPart;
    InvMixLookupAt(t, Byte0(w));
    InvMixLookupAt(t, Byte1(w));
    InvMixLookupAt(t, Byte2(w));
    InvMixLookupAt(t, Byte3(w));
    var c := ColumnOf(w);
    assert c.r0 == Byte0(w) && c.r1 == Byte1(w) && c.r2 == Byte2(w) && c.r3 == Byte3(w);
    hide ColumnOf, Tables.SboxesReady, Tables.RconReady, Tables.RoundTablesReady;
    ReverseSum(c, t.rt0[t.fsb[Byte0(w) as int] as int], t.rt1[t.fsb[Byte1(w) as int] as int],
               t.rt2[t.fsb[Byte2(w) as int] as int], t.rt3[t.fsb[Byte3(w) as int] as int]);
  }

  lemma InvMixLookupAt(t: Tables, b: bv8)
    requires t.Ready()
    ensures
      var i := t.fsb[b as int] as int;
      && ColumnOf(t.rt0[i]) == InvMixPart(b)
      && ColumnOf(t.rt1[i]) == DownOne(InvMixPart(b))
      && ColumnOf(t.rt2[i]) == DownOne(DownOne(InvMixPart(b)))
      && ColumnOf(t.rt3[i]) == DownOne(DownOne(DownOne(InvMixPart(b))))
  {
    ForwardAt(t, b);
    ReverseAt(t, SubByte(b));
    SubByteInverse(b);
    hide ColumnOf, InvMixPart, DownOne, SubByte, InvSubByte, ForwardEntry;
    hide Tables.SboxesReady, Tables.RconReady, Tables.RoundTablesReady;
  }

  /** Word `k` of the decryption schedule: word `k % 4` of round key `nr - k / 4`, transformed in between. */
  function DecWord(w: Schedule, nr: nat, k: nat): Column
    requires k < 4 * nr + 4 <= |w|
  {
    var c := w[4 * (nr - k / 4) + k % 4];
    if k < 4 || k >= 4 * nr then c else InvMixColumn(c)
  }

  /** The decryption schedule in order of use. */
  function DecSchedule(w: Schedule, nr: nat): (dw: Schedule)
    requires 4 * nr + 4 <= |w|
    ensures |dw| == 4 * nr + 4
    ensures forall k :: 0 <= k < 4 * nr + 4 ==> dw[k] == DecWord(w, nr, k)
  {
    hide InvMixColumn;
    seq(4 * nr + 4, k requires 0 <= k < 4 * nr + 4 => DecWord(w, nr, k))
  }

  /** Section 5.3.5: round key `nr - r`, under InvMixColumns except at the two ends. */
  lemma DecScheduleCorrect(w: Schedule, nr: nat)
    requires 4 * nr + 4 <= |w| && 1 <= nr
    ensures IsDecryptionSchedule(DecSchedule(w, nr), w, nr)
  {
    hide InvMixColumn, DecWord;
    var dw := DecSchedule(w, nr);
    forall r | 0 <= r <= nr
      ensures RoundKey(dw, r) ==
              if r == 0 || r == nr then RoundKey(w, nr - r) else InvMixColumns(RoundKey(w, nr - r))
    {
      DecWordAt(w, nr, r, 0);
      DecWordAt(w, nr, r, 1);
      DecWordAt(w, nr, r, 2);
      DecWordAt(w, nr, r, 3);
      assert dw[4 * r + 0] == DecWord(w, nr, 4 * r + 0);
    }
  }

  lemma DecWordAt(w: Schedule, nr: nat, r: nat, j: nat)
    requires 4 * nr + 4 <= |w| && r <= nr && j < 4
    ensures DecWord(w, nr, 4 * r + j) ==
            if r == 0 || r == nr then w[4 * (nr - r) + j] else InvMixColumn(w[4 * (nr - r) + j])
  {
    hide InvMixColumn;
    assert (4 * r + j) / 4 == r && (4 * r + j) % 4 == j;
  }

  /** The first `n` words of `buf` are those of the decryption schedule for `w`. */
  ghost predicate ReversedTo(buf: array<bv32>, w: Schedule, nr: nat, n: nat)
    requires n <= buf.Length && n <= 4 * nr + 4 <= |w|
    reads buf
  {
    forall k :: 0 <= k < n ==> ColumnOf(buf[k]) == DecWord(w, nr, k)
  }

  /** The walk of aes_setkey_dec: `sk` steps backwards through the round keys of `cty`. */
  method ReverseSchedule(t: Tables, ctx: Context, cty: Context, nr: nat)
    requires t.Ready() && ctx.Valid() && cty.Valid() && ctx.buf != cty.buf && ctx.buf !in t.Arrays()
    requires 1 <= nr <= 14
    modifies ctx.buf
    ensures t.Ready() && ReversedTo(ctx.buf, old(cty.Words(4 * nr + 4)), nr, 4 * nr + 4)
  {
    hide ColumnOf, InvMixColumn, InvMixLookup, DecWord, Tables.Ready, Tables.Arrays;
    ghost var w := cty.Words(4 * nr + 4);
    var rk, sk := 0, 4 * nr;
    CopyRoundKey(t, ctx, cty, w, nr, rk, sk);
    rk, sk := rk + 4, sk + 4;

    var i := nr - 1;
    sk := sk - 8;
    while i > 0
      invariant 0 <= i < nr && sk == 4 * i && rk == 4 * (nr - i)
      invariant t.Ready() && ReversedTo(ctx.buf, w, nr, rk)
    {
      var j := 0;
      while j < 4
        invariant 0 <= j <= 4 && sk == 4 * i + j && rk == 4 * (nr - i) + j
        invariant t.Ready() && ReversedTo(ctx.buf, w, nr, rk)
      {
        DecWordAt(w, nr, nr - i, j);
        ctx.buf[rk] := InvMixLookup(t, cty.buf[sk]);
        rk, sk, j := rk + 1, sk + 1, j + 1;
      }
      i, sk := i - 1, sk - 8;
    }

    CopyRoundKey(t, ctx, cty, w, nr, rk, sk);
  }

  /** Four untransformed words, at either end of the schedule. */
  method CopyRoundKey(ghost t: Tables, ctx: Context, cty: Context, ghost w: Schedule, nr: nat, rk: nat, sk: nat)
    requires t.Ready() && ctx.buf !in t.Arrays()
    requires ctx.Valid() && cty.Valid() && ctx.buf != cty.buf && 1 <= nr <= 14
    requires w == cty.Words(4 * nr + 4) && ((rk == 0 && sk == 4 * nr) || (rk == 4 * nr && sk == 0))
    requires ReversedTo(ctx.buf, w, nr, rk)
    modifies ctx.buf
    ensures t.Ready() && ReversedTo(ctx.buf, w, nr, rk + 4)
  {
    hide ColumnOf, InvMixColumn, DecWord, Tables.Ready, Tables.Arrays;
    var j := 0;
    while j < 4
      invariant 0 <= j <= 4 && t.Ready() && ReversedTo(ctx.buf, w, nr, rk + j)
    {
      DecWordAt(w, nr, rk / 4, j);
      ctx.buf[rk + j] := cty.buf[sk + j];
      j := j + 1;
    }
  }

  /** aes_setkey_dec */
  method SetKeyDec(t: Tables, ctx: Context, key: array<bv8>, keysize: int) returns (ret: int)
    requires t.Valid() && ctx.Valid() && ctx.buf !in t.Arrays() && key !in t.Arrays()
    requires IsKeySize(keysize) ==> keysize <= 8 * key.Length
    modifies t, t.Arrays(), ctx, ctx.buf
    ensures t.Valid() && (ret == 0 ==> t.Ready())
    ensures ret == if IsKeySize(keysize) then 0 else INVALID_KEY_LENGTH
    ensures ret == 0 ==> ctx.DecryptsWith(key[..keysize / 8])
    ensures ret != 0 ==> unchanged(t) && unchanged(t.Arrays()) && unchanged(ctx) && unchanged(ctx.buf)
  {
    hide KeyWord, KeyExpansion, ColumnOf, ReversedTo, Tables.SboxesReady, Tables.RconReady, Tables.RoundTablesReady;
    match keysize {
      case 128 => ctx.nr := 10;
      case 192 => ctx.nr := 12;
      case 256 => ctx.nr := 14;
      case _ => return INVALID_KEY_LENGTH;
    }
    var cty := new Context();
    ret := SetKeyEnc(t, cty, key, keysize);
    hide Tables.Arrays;
    ReverseSchedule(t, ctx, cty, ctx.nr);
    ReversedIsSchedule(ctx, cty, key[..keysize / 8]);
  }

  lemma ReversedIsSchedule(ctx: Context, cty: Context, key: seq<bv8>)
    requires ctx.Valid() && cty.EncryptsWith(key) && ctx.nr == cty.nr
    requires ReversedTo(ctx.buf, cty.Words(4 * ctx.nr + 4), ctx.nr, 4 * ctx.nr + 4)
    ensures ctx.DecryptsWith(key)
  {
    hide KeyExpansion, ColumnOf, DecWord;
  }
}
