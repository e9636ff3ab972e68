/** The key expansion, the cipher and the two inverse ciphers of FIPS 197 (sections 5.1 to 5.3). */
module BlockCipher {
  import opened GF256
  import opened Fips197

  type Schedule = seq<Column>

  /** Round key `r`: four consecutive words of the schedule. */
  function RoundKey(w: Schedule, r: nat): State
    requires 4 * r + 4 <= |w|
  {
    State(w[4 * r], w[4 * r + 1], w[4 * r + 2], w[4 * r + 3])
  }

  // ----- section 5.2: key expansion

  predicate IsKey(key: seq<bv8>) { |key| == 16 || |key| == 24 || |key| == 32 }

  function KeyWords(key: seq<bv8>): nat { |key| / 4 }

  function RoundCount(key: seq<bv8>): nat { |key| / 4 + 6 }

  /** The round constant x^n. */
  function RconByte(n: nat): bv8 {
    if n == 0 then 1 else Xtime(RconByte(n - 1))
  }

  function Rcon(n: nat): Column { Column(RconByte(n), 0, 0, 0) }

  function RotWord(c: Column): Column { Column(c.r1, c.r2, c.r3, c.r0) }

  function KeyColumn(key: seq<bv8>, i: nat): Column
    requires i < |key| / 4
  {
    Column(key[4 * i], key[4 * i + 1], key[4 * i + 2], key[4 * i + 3])
  }

  function RconIndex(i: nat, nk: nat): nat
    requires 0 < nk <= i
  {
    i / nk - 1
  }

  /** Word `i` of the expanded key, by the one recurrence that covers all three key sizes. */
  ghost function KeyWord(key: seq<bv8>, i: nat): Column
    requires IsKey(key)
  {
    var nk := KeyWords(key);
    if i < nk then KeyColumn(key, i)
    else
      var temp := KeyWord(key, i - 1);
      var mixed :=
        if i % nk == 0 then AddColumn(SubColumn(RotWord(temp)), Rcon(RconIndex(i, nk)))
        else if nk > 6 && i % nk == 4 then SubColumn(temp)
        else temp;
      AddColumn(KeyWord(key, i - nk), mixed)
  }

  ghost function KeyExpansion(key: seq<bv8>): (w: Schedule)
    requires IsKey(key)
    ensures |w| == 4 * (RoundCount(key) + 1)
  {
    seq(4 * (RoundCount(key) + 1), i requires 0 <= i => KeyWord(key, i))
  }

  // ----- section 5.1: the cipher

  /** The state after the initial AddRoundKey and `r` full rounds. */
  ghost function Rounds(w: Schedule, r: nat, input: State): State
    requires 4 * r + 4 <= |w|
  {
    if r == 0 then Add(input, RoundKey(w, 0))
    else Add(MixColumns(ShiftRows(SubBytes(Rounds(w, r - 1, input)))), RoundKey(w, r))
  }

  ghost function Cipher(w: Schedule, nr: nat, input: State): State
    requires 1 <= nr && 4 * nr + 4 <= |w|
  {
    Add(ShiftRows(SubBytes(Rounds(w, nr - 1, input))), RoundKey(w, nr))
  }

  // ----- section 5.3: the inverse cipher

  /** The state after the initial AddRoundKey and `r` full inverse rounds. */
  ghost function InvRounds(w: Schedule, nr: nat, r: nat, input: State): State
    requires r <= nr && 4 * nr + 4 <= |w|
  {
    if r == 0 then Add(input, RoundKey(w, nr))
    else InvMixColumns(Add(InvSubBytes(InvShiftRows(InvRounds(w, nr, r - 1, input))), RoundKey(w, nr - r)))
  }

  ghost function InvCipher(w: Schedule, nr: nat, input: State): State
    requires 1 <= nr && 4 * nr + 4 <= |w|
  {
    Add(InvSubBytes(InvShiftRows(InvRounds(w, nr, nr - 1, input))), RoundKey(w, 0))
  }

  // ----- section 5.3.5: the equivalent inverse cipher

  /** The decryption schedule in order of use: reversed, with InvMixColumns on all but the two ends. */
  ghost predicate IsDecryptionSchedule(dw: Schedule, w: Schedule, nr: nat)
    requires 4 * nr + 4 <= |w|
  {
    && 4 * nr + 4 <= |dw|
    && forall r :: 0 <= r <= nr ==>
         RoundKey(dw, r) == if r == 0 || r == nr then RoundKey(w, nr - r) else InvMixColumns(RoundKey(w, nr - r))
  }

  ghost function EqInvRounds(dw: Schedule, r: nat, input: State): State
    requires 4 * r + 4 <= |dw|
  {
    if r == 0 then Add(input, RoundKey(dw, 0))
    else Add(InvMixColumns(InvShiftRows(InvSubBytes(EqInvRounds(dw, r - 1, input)))), RoundKey(dw, r))
  }

  ghost function EqInvCipher(dw: Schedule, nr: nat, input: State): State
    requires 1 <= nr && 4 * nr + 4 <= |dw|
  {
    Add(InvShiftRows(InvSubBytes(EqInvRounds(dw, nr - 1, input))), RoundKey(dw, nr))
  }

  /** The equivalent inverse cipher runs through exactly the states of the straightforward one. */
  lemma {:induction false} EqInvRoundsAgree(dw: Schedule, w: Schedule, nr: nat, r: nat, input: State)
    requires r < nr && 4 * nr + 4 <= |w| && IsDecryptionSchedule(dw, w, nr)
    ensures EqInvRounds(dw, r, input) == InvRounds(w, nr, r, input)
  {
    hide Add, InvMixColumns, InvShiftRows, InvSubBytes, RoundKey;
    if r > 0 {
      EqInvRoundsAgree(dw, w, nr, r - 1, input);
      var s := InvRounds(w, nr, r - 1, input);
      InvShiftSubCommute(s);
      InvMixColumnsAdd(InvSubBytes(InvShiftRows(s)), RoundKey(w, nr - r));
    }
  }

  lemma EqInvCipherCorrect(dw: Schedule, w: Schedule, nr: nat, input: State)
    requires 1 <= nr && 4 * nr + 4 <= |w| && IsDecryptionSchedule(dw, w, nr)
    ensures EqInvCipher(dw, nr, input) == InvCipher(w, nr, input)
  {
    hide Add, InvShiftRows, InvSubBytes, RoundKey;
    EqInvRoundsAgree(dw, w, nr, nr - 1, input);
    InvShiftSubCommute(InvRounds(w, nr, nr - 1, input));
  }

  // ----- decryption undoes encryption, and conversely

  lemma {:induction false} InvRoundsUndo(w: Schedule, nr: nat, r: nat, x: State)
    requires r < nr && 4 * nr + 4 <= |w|
    ensures InvRounds(w, nr, r, Cipher(w, nr, x)) == ShiftRows(SubBytes(Rounds(w, nr - 1 - r, x)))
  {
    hide Add, InvMixColumns, MixColumns, InvShiftRows, ShiftRows, SubBytes, InvSubBytes, RoundKey;
    if r == 0 {
      AddInverse(ShiftRows(SubBytes(Rounds(w, nr - 1, x))), RoundKey(w, nr));
    } else {
      InvRoundsUndo(w, nr, r - 1, x);
      var s := Rounds(w, nr - r, x);
      var t := ShiftRows(SubBytes(Rounds(w, nr - r - 1, x)));
      ShiftRowsInverse(SubBytes(s));
      SubBytesInverse(s);
      AddInverse(MixColumns(t), RoundKey(w, nr - r));
      MixColumnsInverse(t);
    }
  }

  lemma InvCipherUndoesCipher(w: Schedule, nr: nat, x: State)
    requires 1 <= nr && 4 * nr + 4 <= |w|
    ensures InvCipher(w, nr, Cipher(w, nr, x)) == x
  {
    hide Add, InvShiftRows, ShiftRows, SubBytes, InvSubBytes, RoundKey;
    InvRoundsUndo(w, nr, nr - 1, x);
    var s := Rounds(w, 0, x);
    ShiftRowsInverse(SubBytes(s));
    SubBytesInverse(s);
    AddInverse(x, RoundKey(w, 0));
  }

  lemma {:induction false} RoundsUndo(w: Schedule, nr: nat, r: nat, y: State)
    requires r < nr && 4 * nr + 4 <= |w|
    ensures Rounds(w, r, InvCipher(w, nr, y)) == InvSubBytes(InvShiftRows(InvRounds(w, nr, nr - 1 - r, y)))
  {
    hide Add, InvMixColumns, MixColumns, InvShiftRows, ShiftRows, SubBytes, InvSubBytes, RoundKey;
    if r == 0 {
      AddInverse(InvSubBytes(InvShiftRows(InvRounds(w, nr, nr - 1, y))), RoundKey(w, 0));
    } else {
      RoundsUndo(w, nr, r - 1, y);
      var s := InvRounds(w, nr, nr - r, y);
      var t := InvSubBytes(InvShiftRows(InvRounds(w, nr, nr - 1 - r, y)));
      SubBytesInverse(InvShiftRows(s));
      ShiftRowsInverse(s);
      MixColumnsInverse(Add(t, RoundKey(w, r)));
      AddInverse(t, RoundKey(w, r));
    }
  }

  lemma CipherUndoesInvCipher(w: Schedule, nr: nat, y: State)
    requires 1 <= nr && 4 * nr + 4 <= |w|
    ensures Cipher(w, nr, InvCipher(w, nr, y)) == y
  {
    hide Add, InvShiftRows, ShiftRows, SubBytes, InvSubBytes, RoundKey;
    RoundsUndo(w, nr, nr - 1, y);
    var s := InvRounds(w, nr, 0, y);
    SubBytesInverse(InvShiftRows(s));
    ShiftRowsInverse(s);
    AddInverse(y, RoundKey(w, nr));
  }

  // ----- on bytes, under a key

  ghost function EncryptBlock(key: seq<bv8>, b: Block): Block
    requires IsKey(key)
  {
    ToBytes(Cipher(KeyExpansion(key), RoundCount(key), FromBytes(b)))
  }

  ghost function DecryptBlock(key: seq<bv8>, b: Block): Block
    requires IsKey(key)
  {
    ToBytes(InvCipher(KeyExpansion(key), RoundCount(key), FromBytes(b)))
  }

  lemma BytesRoundTrip(b: Block, s: State)
    ensures ToBytes(FromBytes(b)) == b
    ensures FromBytes(ToBytes(s)) == s
  {}

  lemma DecryptUndoesEncrypt(key: seq<bv8>, b: Block)
    requires IsKey(key)
    ensures DecryptBlock(key, EncryptBlock(key, b)) == b
    ensures EncryptBlock(key, DecryptBlock(key, b)) == b
  {
    hide FromBytes, ToBytes, Cipher, InvCipher;
    var w, nr := KeyExpansion(key), RoundCount(key);
    BytesRoundTrip(b, Cipher(w, nr, FromBytes(b)));
    BytesRoundTrip(b, InvCipher(w, nr, FromBytes(b)));
    InvCipherUndoesCipher(w, nr, FromBytes(b));
    CipherUndoesInvCipher(w, nr, FromBytes(b));
  }
}
