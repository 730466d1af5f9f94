/** Arithmetic in GF(2^8) with the AES polynomial x^8 + x^4 + x^3 + x + 1 (section 4 of
    FIPS 197), and the powers of the element 3 from which the cipher's tables are built. */
module Gf256 {

  // Proofs about products hide Add and Xtime and use only their laws, so that the
  // solver never expands a whole product into bits.

  /** Field addition. */
  function Add(x: bv8, y: bv8): bv8 {
    x ^ y
  }

  /** Multiplication by x, the XTIME macro. */
  function Xtime(x: bv8): bv8 {
    (x << 1) ^ (if x & 0x80 != 0 then 0x1B else 0)
  }

  /** Multiplication by x + 1, the step of the pow/log loop. */
  function Times3(x: bv8): bv8 {
    Add(x, Xtime(x))
  }

  function Bit(x: bv8, n: nat): bool
    requires n < 8
  {
    (x >> n) & 1 == 1
  }

  /** One step of Horner's rule: r times x, plus a if b. */
  function Step(a: bv8, b: bool, r: bv8): bv8 {
    if b then Add(a, Xtime(r)) else Xtime(r)
  }

  /** x times the polynomial made of the bits of y from n up. */
  function MulFrom(x: bv8, y: bv8, n: nat): bv8
    requires n <= 8
    decreases 8 - n
  {
    if n == 8 then 0 else Step(x, Bit(y, n), MulFrom(x, y, n + 1))
  }

  /** The product of two bytes as field elements. */
  function Mul(x: bv8, y: bv8): bv8 {
    MulFrom(x, y, 0)
  }

  // ----- laws of addition and of Xtime -----

  lemma AddLaws(a: bv8, b: bv8, c: bv8)
    ensures Add(a, b) == Add(b, a)
    ensures Add(a, Add(b, c)) == Add(Add(a, b), c)
    ensures Add(a, 0) == a && Add(a, a) == 0
  {}

  lemma AddSwap(a: bv8, b: bv8, c: bv8, d: bv8)
    ensures Add(Add(a, b), Add(c, d)) == Add(Add(a, c), Add(b, d))
  {
    hide Add;
    AddLaws(Add(a, b), c, d);
    AddLaws(a, b, c);
    AddLaws(c, b, a);
    AddLaws(a, c, b);
    AddLaws(Add(a, c), b, d);
  }

  lemma XtimeLinear(x: bv8, y: bv8)
    ensures Xtime(Add(x, y)) == Add(Xtime(x), Xtime(y))
    ensures Xtime(0) == 0
  {
    if x & 0x80 != 0 { if y & 0x80 != 0 {} else {} } else { if y & 0x80 != 0 {} else {} }
  }

  lemma Times3Injective(x: bv8, y: bv8)
    requires Times3(x) == Times3(y)
    ensures x == y
  {
    if x & 0x80 != 0 { if y & 0x80 != 0 {} else {} } else { if y & 0x80 != 0 {} else {} }
  }

  // ----- the product is additive in its first factor and commutes with Xtime -----

  lemma {:induction false} MulAdditive(x: bv8, y: bv8, z: bv8, n: nat)
    requires n <= 8
    ensures MulFrom(Add(x, y), z, n) == Add(MulFrom(x, z, n), MulFrom(y, z, n))
    decreases 8 - n
  {
    hide Add, Xtime, Bit;
    if n == 8 {
      AddLaws(0, 0, 0);
    } else {
      MulAdditive(x, y, z, n + 1);
      var a, b := MulFrom(x, z, n + 1), MulFrom(y, z, n + 1);
      XtimeLinear(a, b);
      AddSwap(x, y, Xtime(a), Xtime(b));
    }
  }

  lemma {:induction false} MulXtime(x: bv8, y: bv8, n: nat)
    requires n <= 8
    ensures MulFrom(Xtime(x), y, n) == Xtime(MulFrom(x, y, n))
    decreases 8 - n
  {
    hide Add, Bit, Xtime;
    if n == 8 {
      XtimeLinear(0, 0);
    } else {
      MulXtime(x, y, n + 1);
      XtimeLinear(x, Xtime(MulFrom(x, y, n + 1)));
    }
  }

  lemma MulTimes3(x: bv8, y: bv8)
    ensures Mul(Times3(x), y) == Times3(Mul(x, y))
  {
    hide Add, Xtime, MulFrom;
    MulAdditive(x, Xtime(x), y, 0);
    MulXtime(x, y, 0);
  }

  /** The upper four steps of a product. */
  function MulHigh(x: bv8, y: bv8): bv8 {
    Step(x, Bit(y, 4), Step(x, Bit(y, 5), Step(x, Bit(y, 6), Step(x, Bit(y, 7), 0))))
  }

  /** The product with its eight steps written out. */
  function MulUnrolled(x: bv8, y: bv8): bv8 {
    Step(x, Bit(y, 0), Step(x, Bit(y, 1), Step(x, Bit(y, 2), Step(x, Bit(y, 3), MulHigh(x, y)))))
  }

  lemma MulIsUnrolled(x: bv8, y: bv8)
    ensures Mul(x, y) == MulUnrolled(x, y)
  {
    hide Step, Bit;
    assert MulFrom(x, y, 6) == Step(x, Bit(y, 6), Step(x, Bit(y, 7), 0));
    assert MulFrom(x, y, 4) == MulHigh(x, y);
    assert MulFrom(x, y, 2) == Step(x, Bit(y, 2), Step(x, Bit(y, 3), MulFrom(x, y, 4)));
  }

  lemma UnrolledOne(y: bv8)
    ensures MulUnrolled(1, y) == y
  {
    assert MulHigh(1, y) == y >> 4;
  }

  lemma MulOne(y: bv8)
    ensures Mul(1, y) == y
  {
    hide Mul, MulUnrolled;
    MulIsUnrolled(1, y);
    UnrolledOne(y);
  }

  // ----- the powers of 3 -----

  /** 3^n, the value aes_gen_tables stores at pow[n]. */
  function Pow(n: nat): bv8 {
    if n == 0 then 1 else Times3(Pow(n - 1))
  }

  lemma {:induction false} PowAdd(a: nat, b: nat)
    ensures Pow(a + b) == Mul(Pow(a), Pow(b))
    decreases a
  {
    hide Times3, Mul;
    if a == 0 {
      MulOne(Pow(b));
    } else {
      PowAdd(a - 1, b);
      MulTimes3(Pow(a - 1), Pow(b));
    }
  }

  lemma PowSum(a: nat, b: nat)
    ensures Pow(a + b) == MulUnrolled(Pow(a), Pow(b))
  {
    hide Mul, Pow, MulUnrolled;
    PowAdd(a, b);
    MulIsUnrolled(Pow(a), Pow(b));
  }

  lemma PowSmall()
    ensures Pow(2) == 0x05 && Pow(5) == 0x33
  {
    assert Pow(1) == 0x03;
    assert Pow(3) == 0x0F;
    assert Pow(4) == 0x11;
  }

  lemma Products1()
    ensures MulUnrolled(0x33, 0x33) == 0x72 && MulUnrolled(0x72, 0x33) == 0x35
  {
    assert MulHigh(0x33, 0x33) == 0x55 && MulHigh(0x72, 0x33) == 0x96;
  }

  lemma Products2()
    ensures MulUnrolled(0x35, 0x05) == 0xE1 && MulUnrolled(0xE1, 0xE1) == 0x5C
  {
    assert MulHigh(0x35, 0x05) == 0x00 && MulHigh(0xE1, 0xE1) == 0x39;
  }

  lemma Products3()
    ensures MulUnrolled(0x5C, 0xE1) == 0x0C && MulUnrolled(0x0C, 0x5C) == 0xBD
  {
    assert MulHigh(0x5C, 0xE1) == 0x05 && MulHigh(0x0C, 0x5C) == 0x3C;
  }

  lemma Products4()
    ensures MulUnrolled(0xBD, 0xBD) == 0xBC && MulUnrolled(0xBC, 0xBD) == 0x01
  {
    assert MulHigh(0xBD, 0xBD) == 0x43 && MulHigh(0xBC, 0xBD) == 0x48;
  }

  /** 3^255 is 1 and the powers at the maximal proper divisors of 255 are not. */
  lemma PowValues()
    ensures Pow(15) == 0x35 && Pow(51) == 0x0C && Pow(85) == 0xBD && Pow(255) == 0x01
  {
    hide Pow, MulUnrolled;
    PowSmall(); Products1(); Products2(); Products3(); Products4();
    PowSum(5, 5); PowSum(10, 5); PowSum(15, 2); PowSum(17, 17);
    PowSum(34, 17); PowSum(51, 34); PowSum(85, 85); PowSum(170, 85);
  }

  // ----- 3 generates every non-zero byte -----

  lemma {:induction false} PowCancel(a: nat, b: nat)
    requires Pow(a) == Pow(b) && a <= b
    ensures Pow(b - a) == 1
  {
    hide Times3;
    if a > 0 {
      Times3Injective(Pow(a - 1), Pow(b - 1));
      PowCancel(a - 1, b - 1);
    }
  }

  lemma {:induction false} PowNonZero(n: nat)
    ensures Pow(n) != 0
  {
    if n > 0 {
      PowNonZero(n - 1);
      if Pow(n) == 0 { Times3Injective(Pow(n - 1), 0); }
    }
  }

  lemma {:induction false} PowPeriod(g: nat, k: nat)
    requires Pow(g) == 1
    ensures Pow(k * g) == 1
  {
    hide Times3, Mul;
    if k > 0 {
      PowPeriod(g, k - 1);
      PowAdd((k - 1) * g, g);
      MulOne(1);
      assert (k - 1) * g + g == k * g;
    }
  }

  /** Two exponents at which the power is 1 have a common divisor with that property. */
  lemma {:induction false} CommonPeriod(a: nat, b: nat) returns (g: nat, i: nat, j: nat)
    requires a > 0 && b > 0 && Pow(a) == 1 && Pow(b) == 1
    ensures 0 < g <= a && Pow(g) == 1 && i * g == a && j * g == b
    decreases a + b
  {
    hide Times3;
    if a == b {
      g, i, j := a, 1, 1;
    } else if a < b {
      PowCancel(a, b);
      g, i, j := CommonPeriod(a, b - a);
      assert (i + j) * g == i * g + j * g;
      j := i + j;
    } else {
      PowCancel(b, a);
      g, i, j := CommonPeriod(a - b, b);
      assert (i + j) * g == i * g + j * g;
      i := i + j;
    }
  }

  lemma SmallFactor(a: nat, b: nat)
    requires a * b == 255 && a <= 15
    ensures a == 1 || a == 3 || a == 5 || a == 15
  {
    if a == 0 {} else if a == 1 {} else if a == 2 {} else if a == 3 {} else if a == 4 {} else if a == 5 {}
    else if a == 6 {} else if a == 7 {} else if a == 8 {} else if a == 9 {} else if a == 10 {}
    else if a == 11 {} else if a == 12 {} else if a == 13 {} else if a == 14 {} else {}
  }

  lemma MulAtLeast(a: nat, b: nat)
    requires a >= 16 && b >= 16
    ensures a * b >= 256
  {}

  /** A proper divisor of 255 divides 15, 51 or 85. */
  lemma DivisorsOf255(k: nat, g: nat) returns (m: nat)
    requires k * g == 255 && g < 255
    ensures m * g == 15 || m * g == 51 || m * g == 85
  {
    if g <= 15 {
      SmallFactor(g, k);
      m := if g == 1 then 15 else if g == 3 then 5 else if g == 5 then 3 else 1;
    } else {
      assert k <= 15 by { if k > 15 { MulAtLeast(k, g); } }
      SmallFactor(k, g);
      m := if k == 15 then 3 else 1;
    }
  }

  lemma PowOrder(n: nat)
    requires 0 < n < 255
    ensures Pow(n) != 1
  {
    hide Pow;
    if Pow(n) == 1 {
      PowValues();
      var g, i, j := CommonPeriod(n, 255);
      var m := DivisorsOf255(j, g);
      PowPeriod(g, m);
      assert false;
    }
  }

  lemma PowInjective(a: nat, b: nat)
    requires a < b < 255
    ensures Pow(a) != Pow(b)
  {
    hide Pow;
    if Pow(a) == Pow(b) { PowCancel(a, b); PowOrder(b - a); }
  }

  /** A byte read as an array index. */
  function Index(x: bv8): int {
    x as int
  }

  lemma IndexLaws(x: bv8, y: bv8)
    ensures 0 <= Index(x) < 256 && (Index(x) == Index(y) ==> x == y)
  {}

  lemma IndexOf(i: int)
    requires 0 <= i < 256
    ensures Index(i as bv8) == i
  {}

  function PowIndex(n: nat): int {
    Index(Pow(n))
  }

  lemma PowIndexDistinct(a: nat, b: nat)
    requires a < b < 255
    ensures PowIndex(a) != PowIndex(b) && 1 <= PowIndex(b) <= 255
  {
    hide Pow;
    PowInjective(a, b);
    PowNonZero(b);
  }

  ghost function PowsBelow(n: nat): set<int> {
    if n == 0 then {} else PowsBelow(n - 1) + {PowIndex(n - 1)}
  }

  lemma {:induction false} PowsBelowMember(n: nat, v: int)
    ensures v in PowsBelow(n) ==> exists i: nat :: i < n && PowIndex(i) == v
  {
    hide PowIndex;
    if n > 0 { PowsBelowMember(n - 1, v); }
  }

  lemma PowFresh(n: nat)
    requires n < 255
    ensures PowIndex(n) !in PowsBelow(n)
  {
    hide PowIndex, PowsBelow;
    if PowIndex(n) in PowsBelow(n) {
      PowsBelowMember(n, PowIndex(n));
      var i: nat :| i < n && PowIndex(i) == PowIndex(n);
      PowIndexDistinct(i, n);
    }
  }

  lemma {:induction false} PowsBelowSize(n: nat)
    requires n <= 255
    ensures |PowsBelow(n)| == n
  {
    hide PowIndex;
    if n > 0 {
      PowsBelowSize(n - 1);
      PowFresh(n - 1);
    }
  }

  lemma PowsBelowRange(n: nat, v: int)
    requires n <= 255 && v in PowsBelow(n)
    ensures 1 <= v <= 255
  {
    hide PowIndex, PowsBelow;
    PowsBelowMember(n, v);
    var i: nat :| i < n && PowIndex(i) == v;
    if i == 0 { PowZero(); } else { PowIndexDistinct(0, i); }
  }

  ghost function Range(n: nat): (s: set<int>)
    ensures |s| == n && forall v :: v in s <==> 1 <= v <= n
  {
    if n == 0 then {} else Range(n - 1) + {n}
  }

  lemma SubsetOfSameSize(a: set<int>, b: set<int>, v: int)
    requires a <= b && |a| == |b| && v in b
    ensures v in a
  {
    assert |b - a| == |b| - |a|;
  }

  /** 3 generates the multiplicative group: every non-zero byte is one of its powers. */
  lemma LogExists(x: bv8)
    requires x != 0
    ensures exists n: nat :: 1 <= n <= 255 && Pow(n) == x
  {
    hide Pow;
    var i := LogIndex(x as int);
    if i == 0 { PowValues(); PowZero(); assert Pow(255) == x; }
  }

  lemma LogIndex(v: int) returns (i: nat)
    requires 1 <= v <= 255
    ensures i < 255 && PowIndex(i) == v
  {
    hide PowIndex, PowsBelow;
    var top: nat :| top == 255;
    PowsBelowSize(top);
    forall w | w in PowsBelow(top) ensures w in Range(top) { PowsBelowRange(top, w); }
    SubsetOfSameSize(PowsBelow(top), Range(top), v);
    PowsBelowMember(top, v);
    i :| i < 255 && PowIndex(i) == v;
  }

  lemma PowZero()
    ensures Pow(0) == 1 && PowIndex(0) == 1
  {}

  /** The exponent of a non-zero byte in 1..255, the entry aes_gen_tables leaves at log[x]. */
  ghost function Log(x: bv8): (n: nat)
    requires x != 0
    ensures 1 <= n <= 255 && Pow(n) == x
  {
    LogExists(x);
    var n: nat :| 1 <= n <= 255 && Pow(n) == x;
    n
  }

  /** Exponents count modulo 255. */
  lemma PowMod(n: nat)
    ensures Pow(n % 255) == Pow(n)
  {
    hide Pow;
    PowValues();
    PowPeriod(255, n / 255);
    PowAdd(n / 255 * 255, n % 255);
    MulOne(Pow(n % 255));
  }

  lemma MulOfPows(x: bv8, y: bv8)
    requires x != 0 && y != 0
    ensures Mul(x, y) == Pow(Log(x) + Log(y))
  {
    hide Pow, Mul;
    PowAdd(Log(x), Log(y));
  }

  lemma {:induction false} MulFromZero(x: bv8, n: nat)
    requires n <= 8
    ensures MulFrom(0, x, n) == 0 && MulFrom(x, 0, n) == 0
    decreases 8 - n
  {
    hide Xtime;
    if n < 8 {
      MulFromZero(x, n + 1);
      XtimeLinear(0, 0);
    }
  }

  lemma MulZero(x: bv8)
    ensures Mul(0, x) == 0 && Mul(x, 0) == 0
  {
    hide Step;
    MulFromZero(x, 0);
  }

  lemma MulCommutes(x: bv8, y: bv8)
    ensures Mul(x, y) == Mul(y, x)
  {
    hide Mul, Pow;
    if x == 0 { MulZero(y); }
    else if y == 0 { MulZero(x); }
    else { MulOfPows(x, y); MulOfPows(y, x); }
  }

  lemma MulAssociates(x: bv8, y: bv8, z: bv8)
    ensures Mul(Mul(x, y), z) == Mul(x, Mul(y, z))
  {
    hide Mul, Pow;
    MulZero(x); MulZero(y); MulZero(z); MulZero(Mul(x, y)); MulZero(Mul(y, z));
    if x != 0 && y != 0 && z != 0 {
      var a, b, c := Log(x), Log(y), Log(z);
      PowAdd(a, b); PowAdd(a + b, c);
      PowAdd(b, c); PowAdd(a, b + c);
    }
  }

  lemma MulDistributes(x: bv8, y: bv8, z: bv8)
    ensures Mul(Add(x, y), z) == Add(Mul(x, z), Mul(y, z))
    ensures Mul(z, Add(x, y)) == Add(Mul(z, x), Mul(z, y))
  {
    hide Mul, Add;
    MulAdditive0(x, y, z);
    MulCommutes(z, Add(x, y)); MulCommutes(z, x); MulCommutes(z, y);
  }

  lemma MulAdditive0(x: bv8, y: bv8, z: bv8)
    ensures Mul(Add(x, y), z) == Add(Mul(x, z), Mul(y, z))
  {
    hide Add, MulFrom;
    MulAdditive(x, y, z, 0);
  }

  /** Times 2 is XTIME and times 3 is one step of the pow/log loop. */
  lemma MulSmall(x: bv8)
    ensures Mul(2, x) == Xtime(x) && Mul(x, 2) == Xtime(x)
    ensures Mul(3, x) == Times3(x) && Mul(x, 3) == Times3(x)
    ensures Mul(x, 1) == x
  {
    hide Mul, Add;
    assert Xtime(1) == 2 && Times3(1) == 3 by { OneDoubled(); }
    hide Xtime, Times3;
    MulOne(x);
    MulXtime0(1, x);
    MulTimes3(1, x);
    MulCommutes(2, x); MulCommutes(3, x); MulCommutes(1, x);
  }

  lemma OneDoubled()
    ensures Xtime(1) == 2 && Times3(1) == 3
  {}

  lemma MulXtime0(x: bv8, y: bv8)
    ensures Mul(Xtime(x), y) == Xtime(Mul(x, y))
  {
    hide Xtime, MulFrom;
    MulXtime(x, y, 0);
  }

  // ----- multiplicative inverse -----

  /** The inverse of section 4.2 of FIPS 197, with 0 mapped to itself. */
  ghost function Inverse(x: bv8): (y: bv8)
    ensures x == 0 ==> y == 0
    ensures x != 0 ==> Mul(x, y) == 1
  {
    if x == 0 then 0 else
      LogInverse(x);
      var y: bv8 :| Mul(x, y) == 1;
      y
  }

  /** The table lookup pow[255 - log[x]] is an inverse of x. */
  lemma LogInverse(x: bv8)
    requires x != 0
    ensures Mul(x, Pow(255 - Log(x))) == 1
  {
    hide Mul, Pow;
    PowAdd(Log(x), 255 - Log(x));
    PowValues();
  }

  lemma InverseUnique(x: bv8, y: bv8)
    requires Mul(x, y) == 1
    ensures y == Inverse(x) && x == Inverse(y)
  {
    hide Mul, Pow;
    MulCommutes(x, y);
    MulZero(x); MulZero(y);
    InverseUnique1(x, y, Inverse(x));
    InverseUnique1(y, x, Inverse(y));
  }

  lemma InverseUnique1(x: bv8, y: bv8, z: bv8)
    requires x != 0 && Mul(x, y) == 1 && Mul(x, z) == 1
    ensures y == z
  {
    hide Mul, Pow;
    MulZero(x);
    MulOfPows(x, y);
    MulOfPows(x, z);
    var a, b := Log(x) + Log(y), Log(x) + Log(z);
    PowMod(Log(y)); PowMod(Log(z));
    if a <= b {
      PowCancel(a, b);
      if 0 < b - a < 255 { PowOrder(b - a); }
    } else {
      PowCancel(b, a);
      if 0 < a - b < 255 { PowOrder(a - b); }
    }
  }

  lemma InverseInvolutive(x: bv8)
    ensures Inverse(Inverse(x)) == x
  {
    hide Mul;
    if x != 0 { InverseUnique(x, Inverse(x)); }
  }
}
