/** The field GF(2^8) of section 4 of FIPS 197, and its multiplicative group.

    Multiplication is defined by shift and add, as the standard does; the program multiplies
    with tables of powers of 3 and their logarithms. What links the two is proved here: 3 generates
    all 255 nonzero bytes, and products of powers add exponents.

    Many proofs below hide `Xor` and `Xtime`: seen as unknown functions that satisfy a few named
    laws, they are far cheaper for the solver than as bit vectors. */
module GF256 {
  import opened Bytes

  function Xor(a: bv8, b: bv8): bv8 { a ^ b }

  function Xor4(a: bv8, b: bv8, c: bv8, d: bv8): bv8 { Xor(Xor(Xor(a, b), c), d) }

  /** What reducing modulo x^8 + x^4 + x^3 + x + 1 adds to a doubled byte. */
  function Reduction(a: bv8): bv8 { if a & 0x80 != 0 then 0x1B else 0x00 }

  /** Multiplication by x. */
  function Xtime(a: bv8): bv8 {
    Xor(a << 1, Reduction(a))
  }

  /** The part of a product that the lowest bit of `b` selects. */
  function Select(a: bv8, b: bv8): bv8 {
    if b & 1 != 0 then a else 0
  }

  function Mul(a: bv8, b: bv8): bv8
    decreases b
  {
    if b == 0 then 0 else Xor(Select(a, b), Mul(Xtime(a), b >> 1))
  }

  // ----- exclusive or

  lemma XorSelf(a: bv8)
    ensures Xor(a, a) == 0
    ensures Xor(a, 0) == a
    ensures Xor(0, a) == a
  {}

  lemma XorAssoc(a: bv8, b: bv8, c: bv8)
    ensures Xor(Xor(a, b), c) == Xor(a, Xor(b, c))
    ensures Xor(a, b) == Xor(b, a)
  {
    assert (a ^ b) ^ c == a ^ (b ^ c);
  }

  lemma XorSwap(a: bv8, b: bv8, c: bv8, d: bv8)
    ensures Xor(Xor(a, b), Xor(c, d)) == Xor(Xor(a, c), Xor(b, d))
  {
    hide Xor;
    XorAssoc(a, b, Xor(c, d));
    XorAssoc(b, c, d);
    XorAssoc(c, b, d);
    XorAssoc(a, c, Xor(b, d));
  }

  lemma XorCancel(a: bv8, b: bv8)
    ensures Xor(Xor(a, b), b) == a
    ensures Xor(b, Xor(b, a)) == a
  {
    hide Xor;
    XorAssoc(a, b, b);
    XorAssoc(b, b, a);
    XorSelf(b);
    XorSelf(a);
  }

  // ----- linearity of the product

  lemma ReductionXor(a: bv8, b: bv8)
    ensures Reduction(Xor(a, b)) == Xor(Reduction(a), Reduction(b))
  {
    if a & 0x80 == 0 {
      assert (a ^ b) & 0x80 == b & 0x80;
    } else if b & 0x80 == 0 {
      assert (a ^ b) & 0x80 != 0;
    } else {
      assert (a ^ b) & 0x80 == 0;
    }
  }

  lemma ShiftXor(a: bv8, b: bv8)
    ensures Xor(a, b) << 1 == Xor(a << 1, b << 1)
  {
    assert (a ^ b) << 1 == (a << 1) ^ (b << 1);
  }

  lemma XtimeXor(a: bv8, b: bv8)
    ensures Xtime(Xor(a, b)) == Xor(Xtime(a), Xtime(b))
  {
    hide Reduction, Xor;
    ReductionXor(a, b);
    ShiftXor(a, b);
    XorSwap(a << 1, b << 1, Reduction(a), Reduction(b));
  }

  lemma MulStep(a: bv8, b: bv8)
    ensures Mul(a, b) == Xor(Select(a, b), Mul(Xtime(a), b >> 1))
    ensures Mul(a, 0) == 0
    ensures Xtime(0) == 0
    ensures b != 0 ==> b >> 1 < b
  {
    if b == 0 {
      XorSelf(0);
    }
  }

  lemma SelectLinear(a: bv8, b: bv8, c: bv8)
    ensures Select(Xtime(a), c) == Xtime(Select(a, c))
    ensures Select(Xor(a, b), c) == Xor(Select(a, c), Select(b, c))
  {}

  lemma {:induction false} MulXtime(a: bv8, b: bv8)
    ensures Mul(Xtime(a), b) == Xtime(Mul(a, b))
    decreases b
  {
    hide Xor, Xtime, Mul, Select;
    MulStep(a, b);
    MulStep(Xtime(a), b);
    if b == 0 {
    } else {
      MulXtime(Xtime(a), b >> 1);
      SelectLinear(a, a, b);
      XtimeXor(Select(a, b), Mul(Xtime(a), b >> 1));
    }
  }

  lemma {:induction false} MulXor(a: bv8, b: bv8, c: bv8)
    ensures Mul(Xor(a, b), c) == Xor(Mul(a, c), Mul(b, c))
    decreases c
  {
    hide Xor, Xtime, Mul, Select;
    MulStep(a, c);
    MulStep(b, c);
    MulStep(Xor(a, b), c);
    if c == 0 {
      XorSelf(0);
    } else {
      SelectLinear(a, b, c);
      XtimeXor(a, b);
      MulXor(Xtime(a), Xtime(b), c >> 1);
      XorSwap(Select(a, c), Select(b, c), Mul(Xtime(a), c >> 1), Mul(Xtime(b), c >> 1));
    }
  }

  /** The products that MixColumns and its inverse need, written with Xtime. */
  lemma MulSmall(a: bv8)
    ensures Mul(a, 1) == a
    ensures Mul(a, 2) == Xtime(a)
    ensures Mul(a, 3) == Xor(a, Xtime(a))
    ensures Mul(a, 4) == Xtime(Xtime(a))
    ensures Mul(a, 5) == Xor(a, Xtime(Xtime(a)))
    ensures Mul(a, 9) == Xor(a, Xtime(Xtime(Xtime(a))))
    ensures Mul(a, 11) == Xor(a, Xor(Xtime(a), Xtime(Xtime(Xtime(a)))))
    ensures Mul(a, 13) == Xor(a, Xor(Xtime(Xtime(a)), Xtime(Xtime(Xtime(a)))))
    ensures Mul(a, 14) == Xor(Xtime(a), Xor(Xtime(Xtime(a)), Xtime(Xtime(Xtime(a)))))
  {
    hide Xor, Xtime;
    var b := Xtime(a);
    var c := Xtime(b);
    var d := Xtime(c);
    forall x: bv8 ensures Xor(x, 0) == x && Xor(0, x) == x { XorSelf(x); }
    MulStep(d, 0); MulStep(c, 0); MulStep(b, 0); MulStep(a, 0); MulStep(Xtime(d), 0);
    MulStep(d, 1);
    MulStep(c, 1); MulStep(c, 2); MulStep(c, 3);
    MulStep(b, 1); MulStep(b, 2); MulStep(b, 4); MulStep(b, 5); MulStep(b, 6); MulStep(b, 7);
    MulStep(a, 1); MulStep(a, 2); MulStep(a, 3); MulStep(a, 4); MulStep(a, 5);
    MulStep(a, 9); MulStep(a, 11); MulStep(a, 13); MulStep(a, 14);
  }

  // ----- powers of 3

  function Times3(a: bv8): bv8 { Xor(a, Xtime(a)) }

  function Pow3(n: nat): bv8 {
    if n == 0 then 1 else Times3(Pow3(n - 1))
  }

  /** Multiplying by the single bit `1 << k` shifts, as long as no bit is lost. */
  lemma {:induction false} MulMonomial(k: nat, a: bv8)
    requires k < 8 && (a << k) >> k == a
    ensures Mul(1 << k, a) == a << k
    decreases 8 - k
  {
    hide Xtime, Mul, Xor, Select;
    MulStep(1 << k, a);
    if a == 0 {
    } else if k == 7 {
      assert a == 1;
      MulSmall(0x80);
    } else {
      MonomialStep(k, a);
      MulMonomial(k + 1, a >> 1);
    }
  }

  lemma MonomialStep(k: nat, a: bv8)
    requires k < 7 && (a << k) >> k == a
    ensures Xtime(1 << k) == 1 << (k + 1)
    ensures ((a >> 1) << (k + 1)) >> (k + 1) == a >> 1
    ensures Xor(Select(1 << k, a), (a >> 1) << (k + 1)) == a << k
  {}

  lemma MulOne(a: bv8)
    ensures Mul(1, a) == a
  {
    MulMonomial(0, a);
  }

  lemma MulTimes3(a: bv8, b: bv8)
    ensures Mul(Times3(a), b) == Times3(Mul(a, b))
  {
    hide Xor, Xtime, Mul;
    MulXor(a, Xtime(a), b);
    MulXtime(a, b);
  }

  lemma {:induction false} Pow3Add(m: nat, n: nat)
    ensures Pow3(m + n) == Mul(Pow3(m), Pow3(n))
  {
    hide Mul, Times3;
    if m == 0 {
      MulOne(Pow3(n));
    } else {
      Pow3Add(m - 1, n);
      MulTimes3(Pow3(m - 1), Pow3(n));
    }
  }

  /** Pow3 at the divisors of 255: only the last one is 1. */
  lemma Pow3AtDivisors()
    ensures Pow3(1) == 3 && Pow3(3) == 0x0F && Pow3(5) == 0x33 && Pow3(15) == 0x35
    ensures Pow3(17) == 0xE1 && Pow3(51) == 0x0C && Pow3(85) == 0xBD && Pow3(255) == 1
  {
    hide Mul;
    assert Pow3(1) == 3 && Pow3(2) == 5 && Pow3(3) == 0x0F && Pow3(5) == 0x33;
    hide Pow3;
    MulLiterals();
    Pow3Add(5, 5);
    Pow3Add(10, 5);
    Pow3Add(15, 2);
    Pow3Add(17, 17);
    Pow3Add(34, 17);
    Pow3Add(51, 34);
    Pow3Add(85, 85);
    Pow3Add(170, 85);
  }

  /** The product with all eight steps written out. */
  lemma MulUnfolded(a0: bv8, b: bv8)
    ensures
      var a1 := Xtime(a0); var a2 := Xtime(a1); var a3 := Xtime(a2); var a4 := Xtime(a3);
      var a5 := Xtime(a4); var a6 := Xtime(a5); var a7 := Xtime(a6);
      Mul(a0, b) ==
      Xor(Select(a0, b), Xor(Select(a1, b >> 1), Xor(Select(a2, b >> 2), Xor(Select(a3, b >> 3),
      Xor(Select(a4, b >> 4), Xor(Select(a5, b >> 5), Xor(Select(a6, b >> 6), Select(a7, b >> 7))))))))
  {
    hide Xor, Xtime, Mul, Select;
    var a1 := Xtime(a0); var a2 := Xtime(a1); var a3 := Xtime(a2); var a4 := Xtime(a3);
    var a5 := Xtime(a4); var a6 := Xtime(a5); var a7 := Xtime(a6);
    MulStep(a0, b); MulStep(a1, b >> 1); MulStep(a2, b >> 2); MulStep(a3, b >> 3);
    MulStep(a4, b >> 4); MulStep(a5, b >> 5); MulStep(a6, b >> 6); MulStep(a7, b >> 7);
    assert (b >> 1) >> 1 == b >> 2 && (b >> 2) >> 1 == b >> 3 && (b >> 3) >> 1 == b >> 4;
    assert (b >> 4) >> 1 == b >> 5 && (b >> 5) >> 1 == b >> 6 && (b >> 6) >> 1 == b >> 7;
    assert (b >> 7) >> 1 == 0;
    MulStep(Xtime(a7), 0);
    XorSelf(Select(a7, b >> 7));
  }

  lemma MulLiterals()
    ensures Mul(0x33, 0x33) == 0x72 && Mul(0x72, 0x33) == 0x35
    ensures Mul(0x35, 0x05) == 0xE1 && Mul(0xE1, 0xE1) == 0x5C
    ensures Mul(0x5C, 0xE1) == 0x0C && Mul(0x0C, 0x5C) == 0xBD
    ensures Mul(0xBD, 0xBD) == 0xBC && Mul(0xBC, 0xBD) == 0x01
  {
    hide Mul;
    MulUnfolded(0x33, 0x33);
    MulUnfolded(0x72, 0x33);
    MulUnfolded(0x35, 0x05);
    MulUnfolded(0xE1, 0xE1);
    MulUnfolded(0x5C, 0xE1);
    MulUnfolded(0x0C, 0x5C);
    MulUnfolded(0xBD, 0xBD);
    MulUnfolded(0xBC, 0xBD);
  }

  // ----- 3 generates every nonzero byte

  lemma Pow3Times(d: nat, q: nat)
    requires Pow3(d) == 1
    ensures Pow3(d * q) == 1
  {
    hide Mul, Times3;
    if q == 0 {
      assert d * q == 0;
    } else {
      Pow3Times(d, q - 1);
      assert d * q == d * (q - 1) + d;
      Pow3Add(d * (q - 1), d);
      MulOne(1);
    }
  }

  lemma ProperDivisors(d: nat)
    requires 0 < d < 255 && 255 % d == 0
    ensures d in {1, 3, 5, 15, 17, 51, 85}
  {
    var q := 255 / d;
    assert d * q == 255;
    if d > 15 {
      assert q < 16;
      assert q == 1 || q == 2 || q == 3 || q == 4 || q == 5 || q == 6 || q == 7 || q == 8
          || q == 9 || q == 10 || q == 11 || q == 12 || q == 13 || q == 14 || q == 15;
    }
  }

  /** The order of 3 is 255: by Euclid's step, the least exponent with power 1 divides 255. */
  lemma {:induction false} NoSmallerPeriod(d: nat)
    requires 0 < d < 255
    ensures Pow3(d) != 1
  {
    hide Mul, Times3, Pow3;
    Pow3AtDivisors();
    if 255 % d == 0 {
      ProperDivisors(d);
    } else if Pow3(d) == 1 {
      var q, r := 255 / d, 255 % d;
      Pow3Times(d, q);
      Pow3Add(d * q, r);
      MulOne(Pow3(r));
      assert d * q + r == 255;
      NoSmallerPeriod(r);
      assert false;
    }
  }

  lemma Pow3Nonzero(n: nat)
    requires n <= 255
    ensures Pow3(n) != 0
  {
    hide Times3, Pow3;
    Pow3AtDivisors();
    Pow3Add(255 - n, n);
    MulStep(Pow3(255 - n), 0);
  }

  lemma Pow3Injective(m: nat, n: nat)
    requires m < n < 255 + m && n <= 255
    ensures Pow3(m) != Pow3(n)
  {
    hide Mul, Times3, Pow3;
    if Pow3(m) == Pow3(n) {
      Pow3AtDivisors();
      Pow3Add(255 - n, n);
      Pow3Add(255 - n, m);
      NoSmallerPeriod(255 - n + m);
    }
  }

  ghost function PowerSet(n: nat): (s: set<int>)
    requires n <= 255
  {
    set k | 0 <= k < n :: Pow3(k) as int
  }

  lemma {:induction false} PowerSetSize(n: nat)
    requires n <= 255
    ensures |PowerSet(n)| == n
  {
    hide Pow3;
    if n > 0 {
      PowerSetSize(n - 1);
      assert PowerSet(n) == PowerSet(n - 1) + {Pow3(n - 1) as int};
      forall k | 0 <= k < n - 1 ensures Pow3(k) as int != Pow3(n - 1) as int {
        Pow3Injective(k, n - 1);
        if Pow3(k) as int == Pow3(n - 1) as int {
          ByteIndexInjective(Pow3(k), Pow3(n - 1));
        }
      }
    }
  }

  ghost function Interval(n: nat): set<int> {
    if n == 0 then {} else Interval(n - 1) + {n}
  }

  lemma {:induction false} IntervalSize(n: nat, i: int)
    ensures |Interval(n)| == n
    ensures i in Interval(n) <==> 1 <= i <= n
  {
    if n > 0 {
      IntervalSize(n - 1, n);
      IntervalSize(n - 1, i);
    }
  }

  lemma SubsetOfSameSize<T>(a: set<T>, b: set<T>)
    requires a <= b && |a| == |b|
    ensures a == b
  {
    assert b == a + (b - a);
    assert |b| == |a| + |b - a|;
    assert b - a == {};
  }

  /** Every nonzero byte is a power of 3 with an exponent from 1 to 255. */
  lemma Pow3Surjective(b: bv8)
    requires b != 0
    ensures exists k :: 1 <= k <= 255 && Pow3(k) == b
  {
    hide Times3, Pow3;
    PowerSetSize(255);
    forall k | 0 <= k < 255 ensures Pow3(k) as int in Interval(255) {
      Pow3Nonzero(k);
      NonzeroIndex(Pow3(k));
      IntervalSize(255, Pow3(k) as int);
    }
    IntervalSize(255, b as int);
    SubsetOfSameSize(PowerSet(255), Interval(255));
    NonzeroIndex(b);
    assert b as int in PowerSet(255);
    var k :| 0 <= k < 255 && Pow3(k) as int == b as int;
    ByteIndexInjective(Pow3(k), b);
    if k == 0 {
      Pow3AtDivisors();
      Pow3Zero();
      assert Pow3(255) == b;
    }
  }

  lemma Pow3Zero()
    ensures Pow3(0) == 1
  {}

  /** The discrete logarithm to base 3, in the range that the program's `log` table uses. */
  ghost function Log(b: bv8): (k: nat)
    requires b != 0
    ensures 1 <= k <= 255 && Pow3(k) == b
  {
    Pow3Surjective(b);
    var k :| 1 <= k <= 255 && Pow3(k) == b;
    k
  }

  lemma LogUnique(b: bv8, k: nat)
    requires b != 0 && 1 <= k <= 255 && Pow3(k) == b
    ensures Log(b) == k
  {
    hide Pow3;
    if Log(b) < k {
      Pow3Injective(Log(b), k);
    } else if k < Log(b) {
      Pow3Injective(k, Log(b));
    }
  }

  /** Products are sums of logarithms, taken modulo 255. */
  lemma MulByLogs(a: bv8, b: bv8)
    requires a != 0 && b != 0
    ensures Mul(a, b) == Pow3((Log(a) + Log(b)) % 255)
  {
    hide Pow3, Mul;
    var n := Log(a) + Log(b);
    Pow3Add(Log(a), Log(b));
    Pow3AtDivisors();
    Pow3Times(255, n / 255);
    Pow3Add(255 * (n / 255), n % 255);
    MulOne(Pow3(n % 255));
  }

  // ----- multiplicative inverses

  lemma InverseExists(a: bv8)
    requires a != 0
    ensures Mul(a, Pow3(255 - Log(a))) == 1
  {
    hide Pow3, Mul;
    Pow3AtDivisors();
    Pow3Add(Log(a), 255 - Log(a));
  }

  /** Section 5.1.1 of FIPS 197: the multiplicative inverse, with 0 mapped to itself. */
  ghost function Inverse(a: bv8): (r: bv8)
    ensures a == 0 ==> r == 0
    ensures a != 0 ==> Mul(a, r) == 1
  {
    if a == 0 then 0
    else
      InverseExists(a);
      var r :| Mul(a, r) == 1;
      r
  }

  lemma InverseUnique(a: bv8, r: bv8)
    requires Mul(a, r) == 1
    ensures a != 0 && r != 0 && Inverse(a) == r && Mul(r, a) == 1
  {
    hide Pow3;
    MulStep(a, 0);
    ZeroMul(r);
    hide Mul;
    var s := Inverse(a);
    MulStep(a, 0);
    SameLog(a, r);
    SameLog(a, s);
    assert Log(r) == Log(s);
    Pow3Add(Log(a), Log(r));
    Pow3Add(Log(r), Log(a));
  }

  lemma {:induction false} ZeroMul(b: bv8)
    ensures Mul(0, b) == 0
    decreases b
  {
    hide Xor, Xtime, Mul;
    MulStep(0, b);
    if b != 0 {
      ZeroMul(b >> 1);
      XorSelf(0);
    }
  }

  lemma SameLog(a: bv8, r: bv8)
    requires a != 0 && r != 0 && Mul(a, r) == 1
    ensures Log(r) == if Log(a) == 255 then 255 else 255 - Log(a)
  {
    hide Pow3, Mul;
    var n := (Log(a) + Log(r)) % 255;
    MulByLogs(a, r);
    if n != 0 {
      NoSmallerPeriod(n);
    }
  }

  lemma InverseInvolution(a: bv8)
    ensures Inverse(Inverse(a)) == a
  {
    hide Mul, Pow3;
    if a != 0 {
      InverseUnique(a, Inverse(a));
      InverseUnique(Inverse(a), a);
    }
  }
}
