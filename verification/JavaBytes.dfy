/** What the Java sides share: HexUtil, ArrayUtils.subarray, getXor and passCryp.

    A Java int or long is an integer here; every place that narrows one to a byte does so explicitly. */
module JavaBytes {
  import opened Bytes
  import opened BlockModes

  datatype Option<+T> = None | Some(value: T)

  /** The value of a call that may throw. */
  datatype Outcome<+T> = Returned(value: T) | Thrown

  // ----- bytes and ints

  /** `(byte) value` */
  function Narrow(value: int): bv8 { ByteOf(value % 256) }

  /** A byte widened to int. */
  function Signed(b: bv8): int {
    if b as int >= 128 then b as int - 256 else b as int
  }

  lemma SignedNarrow(n: int)
    requires -128 <= n < 128
    ensures Signed(Narrow(n)) == n
  {
    NarrowValue(n);
    hide Narrow;
    if n < 0 {
      assert Narrow(n) as int == n + 256;
    } else {
      assert Narrow(n) as int == n;
    }
  }

  lemma NarrowValue(n: int)
    ensures Narrow(n) as int == n % 256
  {
    ByteOfValue(n % 256);
  }

  lemma NarrowOfByte(b: bv8)
    ensures Narrow(b as int) == b
  {
    ByteOfIndex(b);
  }

  // ----- HexUtil: integers as bytes

  /** The low `n` bytes of `value`, most significant first. */
  function ToBe(value: int, n: nat): (r: seq<bv8>)
    ensures |r| == n
    decreases n
  {
    if n == 0 then [] else ToBe(value / 256, n - 1) + [Narrow(value)]
  }

  /** The low `n` bytes of `value`, least significant first. */
  function ToLe(value: int, n: nat): (r: seq<bv8>)
    ensures |r| == n
    decreases n
  {
    if n == 0 then [] else [Narrow(value)] + ToLe(value / 256, n - 1)
  }

  lemma {:induction false} ToBeValue(value: int, n: nat)
    ensures BeValue(ToBe(value, n)) == value % Pow256(n)
    decreases n
  {
    if n == 0 {
    } else {
      ToBeValue(value / 256, n - 1);
      NarrowValue(value);
      hide Narrow;
      var r := ToBe(value, n);
      assert r[..n - 1] == ToBe(value / 256, n - 1);
      ModDigits(value, Pow256(n - 1));
    }
  }

  lemma ModDigits(v: int, p: nat)
    requires p > 0
    ensures v % (256 * p) == 256 * ((v / 256) % p) + v % 256
  {
    var q, r := v / 256, v % 256;
    var a, b := q / p, q % p;
    assert v == 256 * (a * p + b) + r;
    assert v == a * (256 * p) + (256 * b + r);
    ModUnique(v, a, 256 * b + r, 256 * p);
  }

  lemma {:induction false} ToBeOfValue(s: seq<bv8>)
    ensures ToBe(BeValue(s), |s|) == s
  {
    if s != [] {
      var n := |s| - 1;
      ToBeOfValue(s[..n]);
      ByteRange(s[n]);
      NarrowOfByte(s[n]);
      var v := BeValue(s);
      assert v == BeValue(s[..n]) * 256 + s[n] as int;
      ModUnique(v, BeValue(s[..n]), s[n] as int, 256);
      NarrowMod(v);
      hide Narrow;
      assert s == s[..n] + [s[n]];
    }
  }

  lemma NarrowMod(v: int)
    ensures Narrow(v) == Narrow(v % 256)
  {}

  /** A Java long. */
  type Long = v: int | -0x8000000000000000 <= v < 0x8000000000000000

  /** `(byte) (value >> 8 * k & 0xFF)`: Java takes the distance of a long shift modulo 64. */
  function ShiftedByte(value: Long, k: nat): bv8 { Narrow(value / Pow256(k % 8)) }

  /** toBigEndianBytes: one shift and mask per byte. */
  method ToBigEndianBytes(value: Long, length: nat) returns (result: array<bv8>)
    ensures fresh(result) && result.Length == length
    ensures forall k :: 0 <= k < length ==> result[k] == ShiftedByte(value, length - 1 - k)
    ensures result[..] == ToBe(value, length) <==> ShiftsSuffice(value, length)
  {
    hide ShiftedByte, ToBe, ShiftsSuffice;
    result := new bv8[length];
    var i := 0;
    while i < length
      invariant 0 <= i <= length
      invariant forall k :: 0 <= k < i ==> result[k] == ShiftedByte(value, length - 1 - k)
    {
      result[i] := ShiftedByte(value, length - i - 1);
      i := i + 1;
    }
    ShiftsIffBe(value, result[..]);
  }

  /** toLittleEndianBytes */
  method ToLittleEndianBytes(value: Long, length: nat) returns (result: array<bv8>)
    ensures fresh(result) && result.Length == length
    ensures forall k :: 0 <= k < length ==> result[k] == ShiftedByte(value, k)
    ensures result[..] == ToLe(value, length) <==> ShiftsSuffice(value, length)
  {
    hide ShiftedByte, ToLe, ShiftsSuffice;
    result := new bv8[length];
    var i := 0;
    while i < length
      invariant 0 <= i <= length
      invariant forall k :: 0 <= k < i ==> result[k] == ShiftedByte(value, k)
    {
      result[i] := ShiftedByte(value, i);
      i := i + 1;
    }
    ShiftsIffLe(value, result[..]);
  }

  /** Beyond eight bytes the shifts start over, while the digits of a long are all 0, or all 255 when it is
      negative: the low digits that come up again must be those. */
  predicate ShiftsSuffice(value: Long, length: nat) {
    forall j :: 0 <= j < 8 && j < length - 8 ==> Narrow(value / Pow256(j)) == if value < 0 then 255 else 0
  }

  lemma ShiftsIffBe(value: Long, s: seq<bv8>)
    requires forall k :: 0 <= k < |s| ==> s[k] == ShiftedByte(value, |s| - 1 - k)
    ensures s == ToBe(value, |s|) <==> ShiftsSuffice(value, |s|)
  {
    hide ToBe, ShiftedByte, ShiftsSuffice, Narrow, Pow256;
    var n, t := |s|, ToBe(value, |s|);
    SufficesByDigits(value, n);
    forall k | 0 <= k < n ensures t[k] == Digit(value, n - 1 - k) {
      ToBeAt(value, n, k);
    }
    hide Digit;
    if s == t {
      forall k | 0 <= k < n ensures ShiftedByte(value, k) == Digit(value, k) {
        assert s[n - 1 - k] == t[n - 1 - k];
      }
    }
  }

  lemma ShiftsIffLe(value: Long, s: seq<bv8>)
    requires forall k :: 0 <= k < |s| ==> s[k] == ShiftedByte(value, k)
    ensures s == ToLe(value, |s|) <==> ShiftsSuffice(value, |s|)
  {
    hide ToLe, ShiftedByte, ShiftsSuffice, Narrow, Pow256;
    var n, t := |s|, ToLe(value, |s|);
    SufficesByDigits(value, n);
    forall k | 0 <= k < n ensures t[k] == Digit(value, k) {
      ToLeAt(value, n, k);
    }
    hide Digit;
    if s == t {
      forall k | 0 <= k < n ensures ShiftedByte(value, k) == Digit(value, k) {
        assert s[k] == t[k];
      }
    }
  }

  /** Digit `k` in base 256, of negative values too. */
  function Digit(value: int, k: nat): bv8 { Narrow(value / Pow256(k)) }

  lemma SufficesByDigits(value: Long, n: nat)
    ensures ShiftsSuffice(value, n) <==> forall k :: 0 <= k < n ==> ShiftedByte(value, k) == Digit(value, k)
  {
    hide Pow256, Narrow;
    if forall k :: 0 <= k < n ==> ShiftedByte(value, k) == Digit(value, k) {
      forall j | 0 <= j < 8 && j < n - 8 ensures Narrow(value / Pow256(j)) == if value < 0 then 255 else 0 {
        assert ShiftedByte(value, j + 8) == Digit(value, j + 8);
        HighDigit(value, j + 8);
      }
    }
    if ShiftsSuffice(value, n) {
      forall k | 0 <= k < n ensures ShiftedByte(value, k) == Digit(value, k) {
        if k >= 8 {
          HighDigit(value, k);
          assert Narrow(value / Pow256(k % 8)) == if value < 0 then 255 else 0;
        }
      }
    }
  }

  /** A long has eight digits; behind them stand copies of its sign. */
  lemma HighDigit(value: Long, k: nat)
    requires k >= 8
    ensures Digit(value, k) == if value < 0 then 255 else 0
  {
    assert Pow256(8) == 0x1_0000_0000_0000_0000;
    if k > 8 {
      PowGrows(8, k);
    }
    hide Pow256;
    var p := Pow256(k);
    if value < 0 {
      ModUnique(value, -1, value + p, p);
    } else {
      ModUnique(value, 0, value, p);
    }
    SignDigits();
  }

  lemma SignDigits()
    ensures Narrow(0) == 0 && Narrow(-1) == 255
  {
    ByteOfValue(255);
    ByteIndexInjective(ByteOf(255), 255);
  }

  /** Nine bytes of 1 are not one of 1: the first byte is shifted by 64, that is by nothing. */
  lemma NineBytesOfOne()
    ensures ShiftedByte(1, 8) == 1 && ToBe(1, 9)[0] == 0 && !ShiftsSuffice(1, 9)
  {
    ByteOfValue(1);
    ByteIndexInjective(Narrow(1), 1);
    HighDigit(1, 8);
    ToBeAt(1, 9, 0);
    hide Narrow;
    assert Pow256(0) == 1 && 1 / Pow256(0) == 1;
  }

  lemma {:induction false} ToBeAt(value: int, n: nat, i: nat)
    requires i < n
    ensures ToBe(value, n)[i] == Narrow(value / Pow256(n - i - 1))
    decreases n
  {
    hide Narrow;
    if i == n - 1 {
      assert value / 1 == value;
    } else {
      ToBeAt(value / 256, n - 1, i);
      DivDiv(value, Pow256(n - i - 2));
    }
  }

  lemma DivDiv(v: int, p: nat)
    requires p > 0
    ensures (v / 256) / p == v / (256 * p)
  {
    var a, b := (v / 256) / p, (v / 256) % p;
    assert v == a * (256 * p) + (256 * b + v % 256);
    ModUnique(v, a, 256 * b + v % 256, 256 * p);
  }

  lemma {:induction false} ToLeAt(value: int, n: nat, i: nat)
    requires i < n
    ensures ToLe(value, n)[i] == Narrow(value / Pow256(i))
    decreases n
  {
    hide Narrow;
    if i == 0 {
      assert value / 1 == value;
    } else {
      ToLeAt(value / 256, n - 1, i - 1);
      DivDiv(value, Pow256(i - 1));
    }
  }

  /** The sum that parseBigEndianBytes forms of bytes that end `k` places before the last: Java takes the
      distance of an int shift modulo 32, so a byte moves by at most three places. */
  function Folded(bytes: seq<bv8>, k: nat): nat {
    if bytes == [] then 0
    else bytes[|bytes| - 1] as int * Pow256(k % 4) + Folded(bytes[..|bytes| - 1], k + 1)
  }

  /** parseBigEndianBytes */
  method ParseBigEndianBytes(bytes: seq<bv8>) returns (value: int)
    ensures value == Folded(bytes, 0)
    ensures |bytes| <= 4 ==> value == BeValue(bytes)
  {
    hide Pow256, Folded, BeValue;
    value := 0;
    var i := 0;
    FoldedNothing(|bytes|);
    assert bytes[..0] == [];
    while i < |bytes|
      invariant 0 <= i <= |bytes|
      invariant value == Folded(bytes[..i], |bytes| - i)
    {
      FoldedStep(bytes, i);
      ByteRange(bytes[i]);
      var unsigned := if Signed(bytes[i]) >= 0 then Signed(bytes[i]) else Signed(bytes[i]) + 256;
      var temp := unsigned * Pow256((|bytes| - i - 1) % 4);
      value := value + temp;
      i := i + 1;
    }
    assert bytes[..i] == bytes;
    ParseIff(bytes);
  }

  lemma FoldedNothing(k: nat)
    ensures Folded([], k) == 0
  {}

  lemma FoldedStep(bytes: seq<bv8>, i: nat)
    requires i < |bytes|
    ensures Folded(bytes[..i + 1], |bytes| - i - 1) ==
            bytes[i] as int * Pow256((|bytes| - i - 1) % 4) + Folded(bytes[..i], |bytes| - i)
  {
    hide Pow256;
    assert bytes[..i + 1][..i] == bytes[..i];
  }

  /** The result is the big-endian value exactly when nothing but zeros stands before the last four bytes. */
  lemma ParseIff(bytes: seq<bv8>)
    ensures Folded(bytes, 0) == BeValue(bytes) <==> forall i :: 0 <= i < |bytes| - 4 ==> bytes[i] == 0
  {
    FoldedBelow(bytes, 0);
  }

  lemma {:induction false} FoldedBelow(bytes: seq<bv8>, k: nat)
    ensures Folded(bytes, k) <= BeValue(bytes) * Pow256(k)
    ensures Folded(bytes, k) == BeValue(bytes) * Pow256(k) <==>
            forall i :: 0 <= i < |bytes| + k - 4 && i < |bytes| ==> bytes[i] == 0
  {
    if bytes != [] {
      var n := |bytes| - 1;
      var b, front := bytes[n], bytes[..n];
      FoldedBelow(front, k + 1);
      PowFolds(k);
      ByteRange(b);
      Distribute(BeValue(front), b as int, Pow256(k));
      TermBelow(b as int, Pow256(k % 4), Pow256(k));
      if b as int == 0 {
        ByteIndexInjective(b, 0);
      }
      hide Pow256;
      assert forall i :: 0 <= i < n ==> front[i] == bytes[i];
    }
  }

  lemma TermBelow(b: int, p: int, q: int)
    requires 0 <= b && p <= q
    ensures b * p <= b * q
    ensures b * p == b * q <==> b == 0 || p == q
  {}

  lemma {:induction false} PowFolds(k: nat)
    ensures Pow256(k % 4) <= Pow256(k)
    ensures Pow256(k % 4) == Pow256(k) <==> k < 4
  {
    if k >= 4 {
      PowGrows(k % 4, k);
    }
  }

  lemma {:induction false} PowGrows(j: nat, k: nat)
    requires j < k
    ensures Pow256(j) < Pow256(k)
  {
    if j < k - 1 {
      PowGrows(j, k - 1);
    }
  }

  lemma Distribute(a: int, b: int, p: int)
    ensures (256 * a + b) * p == a * (256 * p) + b * p
  {}

  // ----- HexUtil: the two-byte encoders of the server

  /** bigEndianAddShortToBytes, with its special case for small and negative values. */
  function BigEndianShort(value: int): (r: seq<bv8>)
    ensures |r| == 2
  {
    if value < 0xFF then [0, Narrow(value)] else [Narrow(value / 256), Narrow(value)]
  }

  /** littleEndianToBytes */
  function LittleEndianShort(value: int): (r: seq<bv8>)
    ensures |r| == 2
  {
    if value < 0xFF then [Narrow(value), 0] else [Narrow(value), Narrow(value / 256)]
  }

  /** The special case drops the high byte exactly when a negative value has one. */
  lemma ShortsAgree(value: int)
    ensures BigEndianShort(value) == ToBe(value, 2) <==> value >= 0 || Narrow(value / 256) == 0
    ensures LittleEndianShort(value) == ToLe(value, 2) <==> value >= 0 || Narrow(value / 256) == 0
  {
    assert ToBe(value, 2) == ToBe(value / 256, 1) + [Narrow(value)];
    assert ToBe(value / 256, 1) == [Narrow(value / 256)];
    assert ToBe(value, 2) == [Narrow(value / 256), Narrow(value)];
    assert ToLe(value / 256, 1) == [Narrow(value / 256)];
    assert ToLe(value, 2) == [Narrow(value), Narrow(value / 256)];
    if 0 <= value < 0xFF {
      assert value / 256 == 0 && Narrow(0) == 0;
    }
    hide Narrow, ToBe, ToLe;
    assert ToBe(value, 2)[0] == Narrow(value / 256) && ToLe(value, 2)[1] == Narrow(value / 256);
  }

  // ----- HexUtil: hexadecimal

  function HexDigit(n: int): char
    requires 0 <= n < 16
  {
    "0123456789abcdef"[n]
  }

  /** Two digits for a value from 0 to 255. */
  function HexPair(v: int): (r: string)
    requires 0 <= v < 256
    ensures |r| == 2
  {
    [HexDigit(v / 16), HexDigit(v % 16)]
  }

  function HexByte(b: bv8): (r: string)
    ensures |r| == 2
  {
    ByteRange(b);
    HexPair(b as int)
  }

  function Hex(bytes: seq<bv8>): (r: string)
    ensures |r| == 2 * |bytes|
  {
    if bytes == [] then "" else HexByte(bytes[0]) + Hex(bytes[1..])
  }

  /** bytesToHexString; the result is lower case already, so the final toLowerCase changes nothing. */
  method BytesToHexString(byteArray: seq<bv8>) returns (sb: string)
    ensures sb == Hex(byteArray)
  {
    hide Hex, HexPair;
    sb := "";
    var i := 0;
    HexNothing();
    assert byteArray[0..] == byteArray;
    while i < |byteArray|
      invariant 0 <= i <= |byteArray|
      invariant sb + Hex(byteArray[i..]) == Hex(byteArray)
    {
      HexStep(byteArray, i);
      ConcatAssoc(sb, HexPair(byteArray[i] as int), Hex(byteArray[i + 1..]));
      sb := AppendPair(sb, byteArray[i] as int);
      i := i + 1;
    }
    assert byteArray[i..] == [];
  }

  lemma HexNothing()
    ensures Hex([]) == []
  {}

  lemma ConcatAssoc<T>(a: seq<T>, b: seq<T>, c: seq<T>)
    ensures (a + b) + c == a + (b + c)
  {}

  lemma HexStep(bytes: seq<bv8>, i: nat)
    requires i < |bytes|
    ensures 0 <= bytes[i] as int < 256
    ensures Hex(bytes[i..]) == HexPair(bytes[i] as int) + Hex(bytes[i + 1..])
  {
    hide HexPair;
    ByteRange(bytes[i]);
    assert bytes[i..][1..] == bytes[i + 1..];
  }

  /** A leading '0' is appended for values below 16; Integer.toHexString gives the other digits. */
  method AppendPair(sb: string, v: int) returns (r: string)
    requires 0 <= v < 256
    ensures r == sb + HexPair(v)
  {
    r := sb;
    if v < 16 {
      r := r + ['0'];
      r := r + [HexDigit(v)];
    } else {
      r := r + [HexDigit(v / 16), HexDigit(v % 16)];
    }
  }

  /** Every digit is '0' to '9' or 'a' to 'f'; by UnhexHex that settles which one. */
  lemma {:induction false} HexIsLower(bytes: seq<bv8>)
    ensures forall c :: c in Hex(bytes) ==> '0' <= c <= '9' || 'a' <= c <= 'f'
  {
    if bytes != [] {
      ByteRange(bytes[0]);
      LowerDigit(bytes[0] as int / 16);
      LowerDigit(bytes[0] as int % 16);
      hide HexDigit;
      HexIsLower(bytes[1..]);
    }
  }

  lemma LowerDigit(n: int)
    requires 0 <= n < 16
    ensures var c := HexDigit(n); '0' <= c <= '9' || 'a' <= c <= 'f'
  {}

  lemma HexByteInjective(a: bv8, b: bv8)
    requires HexByte(a) == HexByte(b)
    ensures a == b
  {
    hide HexPair;
    ByteRange(a);
    ByteRange(b);
    HexPairInjective(a as int, b as int);
    ByteIndexInjective(a, b);
  }

  lemma HexPairInjective(m: int, n: int)
    requires 0 <= m < 256 && 0 <= n < 256 && HexPair(m) == HexPair(n)
    ensures m == n
  {
    assert HexPair(m)[0] == HexPair(n)[0] && HexPair(m)[1] == HexPair(n)[1];
    DigitInjective(m / 16, n / 16);
    DigitInjective(m % 16, n % 16);
    hide HexDigit;
  }

  lemma DigitInjective(m: int, n: int)
    requires 0 <= m < 16 && 0 <= n < 16 && HexDigit(m) == HexDigit(n)
    ensures m == n
  {}

  /** Different byte strings have different map keys. */
  lemma {:induction false} HexInjective(a: seq<bv8>, b: seq<bv8>)
    requires Hex(a) == Hex(b)
    ensures a == b
  {
    hide HexByte;
    if a == [] {
      assert b == [];
    } else {
      assert HexByte(a[0]) == Hex(a)[..2] && Hex(a[1..]) == Hex(a)[2..];
      assert b != [];
      assert HexByte(b[0]) == Hex(b)[..2] && Hex(b[1..]) == Hex(b)[2..];
      HexByteInjective(a[0], b[0]);
      HexInjective(a[1..], b[1..]);
      assert a == [a[0]] + a[1..] && b == [b[0]] + b[1..];
    }
  }

  /** Character.digit for radix 16; -1 for anything else. */
  function DigitValue(c: char): int {
    if '0' <= c <= '9' then c as int - '0' as int
    else if 'a' <= c <= 'f' then c as int - 'a' as int + 10
    else if 'A' <= c <= 'F' then c as int - 'A' as int + 10
    else -1
  }

  /** hexStringToBytes; an odd last character is ignored. */
  function Unhex(hex: string): (r: seq<bv8>)
    ensures |r| == |hex| / 2
  {
    if |hex| < 2 then []
    else [Narrow(16 * DigitValue(hex[0]) + DigitValue(hex[1]))] + Unhex(hex[2..])
  }

  lemma {:induction false} UnhexHex(bytes: seq<bv8>)
    ensures Unhex(Hex(bytes)) == bytes
  {
    if bytes != [] {
      hide Narrow, HexPair, DigitValue;
      var b, rest := bytes[0], bytes[1..];
      ByteRange(b);
      UnhexPair(b as int, Hex(rest));
      NarrowOfByte(b);
      UnhexHex(rest);
    }
  }

  lemma UnhexPair(v: int, rest: string)
    requires 0 <= v < 256
    ensures Unhex(HexPair(v) + rest) == [Narrow(v)] + Unhex(rest)
  {
    hide Narrow;
    var h := HexPair(v) + rest;
    assert h[0] == HexDigit(v / 16) && h[1] == HexDigit(v % 16) && h[2..] == rest;
    DigitRoundTrip(v / 16);
    DigitRoundTrip(v % 16);
    hide HexDigit, DigitValue;
    assert v == 16 * (v / 16) + v % 16;
  }

  lemma DigitRoundTrip(n: int)
    requires 0 <= n < 16
    ensures DigitValue(HexDigit(n)) == n
  {}

  /** Byte `k` comes from digits 2k and 2k + 1. */
  lemma {:induction false} UnhexAt(hex: string, k: nat)
    requires 2 * k + 1 < |hex|
    ensures Unhex(hex)[k] == Narrow(16 * DigitValue(hex[2 * k]) + DigitValue(hex[2 * k + 1]))
  {
    hide Narrow, DigitValue;
    if k > 0 {
      UnhexAt(hex[2..], k - 1);
    }
  }

  method HexStringToBytes(hex: string) returns (data: array<bv8>)
    ensures fresh(data) && data[..] == Unhex(hex)
  {
    hide Unhex, Narrow, DigitValue;
    data := new bv8[|hex| / 2](i => 0);
    var i := 0;
    while i < |hex| - 1
      invariant i % 2 == 0 && 0 <= i <= |hex|
      invariant forall k :: 0 <= k < i / 2 ==> data[k] == Unhex(hex)[k]
    {
      UnhexAt(hex, i / 2);
      data[i / 2] := Narrow(16 * DigitValue(hex[i]) + DigitValue(hex[i + 1]));
      i := i + 2;
    }
  }

  function UpperDigit(c: char): char { if 'a' <= c <= 'f' then (c as int - 32) as char else c }

  /** Digits are read in either case, and anything else as -1. */
  lemma DigitsInEitherCase(c: char)
    ensures DigitValue(UpperDigit(c)) == DigitValue(c)
    ensures 0 <= DigitValue(c) <= 15 ==> HexDigit(DigitValue(c)) == c || UpperDigit(HexDigit(DigitValue(c))) == c
    ensures DigitValue(c) == -1 || 0 <= DigitValue(c) <= 15
  {}

  // ----- ArrayUtils.subarray: out-of-range bounds are clamped

  function Subarray(a: seq<bv8>, start: int, end: int): (r: seq<bv8>) {
    var s := if start < 0 then 0 else start;
    var e := if end > |a| then |a| else end;
    if e <= s then [] else a[s..e]
  }

  /** The bytes of `a` at the indices from `start` up to `end` that it has. */
  lemma SubarrayAt(a: seq<bv8>, start: int, end: int, i: int)
    ensures
      var r := Subarray(a, start, end);
      && (start <= i < end && 0 <= i < |a| && start >= 0 ==> i - start < |r| && r[i - start] == a[i])
      && (start <= i < end && 0 <= i < |a| && start < 0 ==> i < |r| && r[i] == a[i])
    ensures
      var low := if start < 0 then 0 else start;
      0 <= i < |Subarray(a, start, end)| ==> low + i < |a| && low + i < end
  {}

  // ----- AlgorithmImpl.getXor

  /** Throws when either array is shorter than `length`. */
  function GetXor(a: seq<bv8>, b: seq<bv8>, length: nat): Outcome<seq<bv8>> {
    if length <= |a| && length <= |b| then Returned(XorBytes(a[..length], b[..length])) else Thrown
  }
}
