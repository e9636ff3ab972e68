/** `CrypUtils.passCryp`: the in-place keystream that the database columns are stored under. */
module PassCryp {
  import opened Bytes
  import opened GF256
  import opened JavaBytes

  function Key0(): (s: string) ensures |s| == 37 { "g?ol0d!en@s7ec.1u8r$ityf*e#rr3*yw&a^y" }
  function Key1(): (s: string) ensures |s| == 38 { "3g!#d34&fddf*d4adfd8)de+^dad*d57#daTga" }
  function Key2(): (s: string) ensures |s| == 39 { "*dne71#dc&ia?yad>lad,ad3h*aducat3~da3)d" }
  function Key3(): (s: string) ensures |s| == 40 { "-vdg9e*dqa1cF?Ka3,d3emca*^1p)u5i]ag2r*de" }

  /** The character for position `i`: one of four keys by the residues of `i`, at index `i % 37`. */
  function MaskChar(i: nat): char {
    var j := i % 37;
    if i % 2 == 0 then (if i % 5 == 0 then Key0()[j] else Key1()[j])
    else (if i % 3 == 0 then Key2()[j] else Key3()[j])
  }

  function Mask(i: nat): bv8 { Narrow(MaskChar(i) as int) }

  /** What passCryp leaves in an array that held `s`. */
  function Crypted(s: seq<bv8>): (r: seq<bv8>)
    ensures |r| == |s|
    ensures forall i :: 0 <= i < |s| ==> r[i] == Xor(s[i], Mask(i))
  {
    seq(|s|, i requires 0 <= i < |s| => Xor(s[i], Mask(i)))
  }

  /** passCryp is its own inverse at every length. */
  lemma CryptedTwice(s: seq<bv8>)
    ensures Crypted(Crypted(s)) == s
  {
    hide Xor, Mask;
    forall i | 0 <= i < |s| ensures Crypted(Crypted(s))[i] == s[i] {
      XorCancel(s[i], Mask(i));
    }
  }

  lemma MaskAt(i: nat)
    ensures
      var j := i % 37;
      Mask(i) == Narrow((if i % 2 == 0 then if i % 5 == 0 then Key0()[j] else Key1()[j]
                         else if i % 3 == 0 then Key2()[j] else Key3()[j]) as int)
  {
    hide Narrow, Key0, Key1, Key2, Key3;
  }

  lemma Key0Bytes(j: nat)
    requires j < 37
    ensures Key0()[j] as int ==
            [0x67, 0x3F, 0x6F, 0x6C, 0x30, 0x64, 0x21, 0x65, 0x6E, 0x40, 0x73, 0x37, 0x65, 0x63, 0x2E, 0x31,
             0x75, 0x38, 0x72, 0x24, 0x69, 0x74, 0x79, 0x66, 0x2A, 0x65, 0x23, 0x72, 0x72, 0x33, 0x2A, 0x79,
             0x77, 0x26, 0x61, 0x5E, 0x79][j]
  {}

  lemma Key1Bytes(j: nat)
    requires j < 37
    ensures Key1()[j] as int ==
            [0x33, 0x67, 0x21, 0x23, 0x64, 0x33, 0x34, 0x26, 0x66, 0x64, 0x64, 0x66, 0x2A, 0x64, 0x34, 0x61,
             0x64, 0x66, 0x64, 0x38, 0x29, 0x64, 0x65, 0x2B, 0x5E, 0x64, 0x61, 0x64, 0x2A, 0x64, 0x35, 0x37,
             0x23, 0x64, 0x61, 0x54, 0x67][j]
  {}

  lemma Key2Bytes(j: nat)
    requires j < 37
    ensures Key2()[j] as int ==
            [0x2A, 0x64, 0x6E, 0x65, 0x37, 0x31, 0x23, 0x64, 0x63, 0x26, 0x69, 0x61, 0x3F, 0x79, 0x61, 0x64,
             0x3E, 0x6C, 0x61, 0x64, 0x2C, 0x61, 0x64, 0x33, 0x68, 0x2A, 0x61, 0x64, 0x75, 0x63, 0x61, 0x74,
             0x33, 0x7E, 0x64, 0x61, 0x33][j]
  {}

  lemma Key3Bytes(j: nat)
    requires j < 37
    ensures Key3()[j] as int ==
            [0x2D, 0x76, 0x64, 0x67, 0x39, 0x65, 0x2A, 0x64, 0x71, 0x61, 0x31, 0x63, 0x46, 0x3F, 0x4B, 0x61,
             0x33, 0x2C, 0x64, 0x33, 0x65, 0x6D, 0x63, 0x61, 0x2A, 0x5E, 0x31, 0x70, 0x29, 0x75, 0x35, 0x69,
             0x5D, 0x61, 0x67, 0x32, 0x72][j]
  {}

  /** Even positions use the first key at multiples of 10 and else the second; odd ones the third at odd multiples
      of 3 and else the fourth. The index wraps after 36. */
  lemma KeyAt(i: nat, q: nat, j: nat)
    requires i == 37 * q + j && j < 37
    ensures i % 10 == 0 ==> MaskChar(i) == Key0()[j]
    ensures i % 10 in {2, 4, 6, 8} ==> MaskChar(i) == Key1()[j]
    ensures i % 6 == 3 ==> MaskChar(i) == Key2()[j]
    ensures i % 6 in {1, 5} ==> MaskChar(i) == Key3()[j]
    ensures Mask(i) as int == MaskChar(i) as int % 256
  {
    hide Key0, Key1, Key2, Key3, Narrow;
    ModUnique(i, q, j, 37);
    Residues(i);
    NarrowValue(MaskChar(i) as int);
  }

  lemma Residues(i: nat)
    ensures i % 10 == 0 <==> i % 2 == 0 && i % 5 == 0
    ensures i % 10 in {2, 4, 6, 8} <==> i % 2 == 0 && i % 5 != 0
    ensures i % 6 == 3 <==> i % 2 == 1 && i % 3 == 0
    ensures i % 6 in {1, 5} <==> i % 2 == 1 && i % 3 != 0
  {
    var q, r := i / 10, i % 10;
    SameRemainder(r, 2, 5 * q);
    SameRemainder(r, 5, 2 * q);
    assert i % 2 == r % 2 && i % 5 == r % 5;
    var t, u := i / 6, i % 6;
    SameRemainder(u, 2, 3 * t);
    SameRemainder(u, 3, 2 * t);
    assert i % 2 == u % 2 && i % 3 == u % 3;
  }

  /** The keystream repeats after 1110 bytes, the least common multiple of 37, 10 and 6. */
  lemma KeystreamRepeats(i: nat)
    ensures Mask(i + 1110) == Mask(i)
  {
    hide Narrow, Key0, Key1, Key2, Key3;
    SameRemainder(i, 37, 30);
    SameRemainder(i, 2, 555);
    SameRemainder(i, 3, 370);
    SameRemainder(i, 5, 222);
  }

  lemma SameRemainder(i: nat, m: nat, k: nat)
    requires m > 0
    ensures (i + m * k) % m == i % m
  {
    ModUnique(i + m * k, i / m + k, i % m, m);
  }

  lemma WrapIndex(i: nat)
    ensures (i + 1) % 37 == if i % 37 == 36 then 0 else i % 37 + 1
  {}

  /** passCryp: works in place and returns its argument. The index `j` wraps after 36 in all four keys. */
  method PassCrypInPlace(passByte: array<bv8>)
    modifies passByte
    ensures passByte[..] == Crypted(old(passByte[..]))
  {
    hide Xor, Mask, Narrow, Key0, Key1, Key2, Key3;
    ghost var s := passByte[..];
    var i, j := 0, 0;
    while i < passByte.Length
      invariant 0 <= i <= passByte.Length && j == i % 37
      invariant forall k :: 0 <= k < i ==> passByte[k] == Xor(s[k], Mask(k))
      invariant forall k :: i <= k < passByte.Length ==> passByte[k] == s[k]
    {
      MaskAt(i);
      WrapIndex(i);
      if i % 2 == 0 {
        if i % 5 == 0 {
          passByte[i] := Xor(passByte[i], Narrow(Key0()[j] as int));
        } else {
          passByte[i] := Xor(passByte[i], Narrow(Key1()[j] as int));
        }
      } else {
        if i % 3 == 0 {
          passByte[i] := Xor(passByte[i], Narrow(Key2()[j] as int));
        } else {
          passByte[i] := Xor(passByte[i], Narrow(Key3()[j] as int));
        }
      }
      i, j := i + 1, j + 1;
      if j > 36 {
        j := 0;
      }
    }
  }
}
