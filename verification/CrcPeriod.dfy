/** Two flipped bits under CRC-16-IBM.

    The register, shifted with no input, is multiplication by x modulo the reflected
    polynomial.  Its order is 32767, so two flipped bits of the covered bytes cancel exactly
    when their distance is a multiple of 32767 bits (`TwoBitsDetectedExactly`). `CrcBoundary`
    takes in the CRC field. */
module CrcPeriod {
  import opened Bytes
  import opened Crc
  import opened CrcErrors

  /** The register holding the polynomial 1. */
  const ONE: bv16 := 0x8000

  const PERIOD: nat := 32767

  /** The register holding x to the power `k`. */
  function Power(k: nat): bv16 {
    Shifts(ONE, k)
  }

  function TopBit(b: bv16): bool {
    b & 0x8000 != 0
  }

  /** One row of a long multiplication. */
  function Row(a: bv16, b: bv16): bv16 {
    if TopBit(b) then a else 0
  }

  /** The product of two registers; `n` bits of `b`, highest first. */
  function Product(a: bv16, b: bv16, n: nat): bv16
    decreases n
  {
    if n == 0 then 0 else Xor(Row(a, b), Product(Shift(a), Double(b), n - 1))
  }

  /** Four rows at once, as bit operations. */
  function FourShifts(a: bv16): bv16 {
    var a1 := (a >> 1) ^ (if a & 1 == 0 then 0 else POLYNOMIAL);
    var a2 := (a1 >> 1) ^ (if a1 & 1 == 0 then 0 else POLYNOMIAL);
    var a3 := (a2 >> 1) ^ (if a2 & 1 == 0 then 0 else POLYNOMIAL);
    (a3 >> 1) ^ (if a3 & 1 == 0 then 0 else POLYNOMIAL)
  }

  function FourDoubles(b: bv16): bv16 {
    b << 4
  }

  function FourRows(a: bv16, b: bv16): bv16 {
    var a1, b1 := Shift(a), Double(b);
    var a2, b2 := Shift(a1), Double(b1);
    var a3, b3 := Shift(a2), Double(b2);
    Xor(Row(a, b), Xor(Row(a1, b1), Xor(Row(a2, b2), Row(a3, b3))))
  }

  /** The whole product, four rows at a time. */
  function Multiply(a: bv16, b: bv16): bv16 {
    var a1, b1 := FourShifts(a), FourDoubles(b);
    var a2, b2 := FourShifts(a1), FourDoubles(b1);
    var a3, b3 := FourShifts(a2), FourDoubles(b2);
    Xor(FourRows(a, b), Xor(FourRows(a1, b1), Xor(FourRows(a2, b2), Xor(FourRows(a3, b3), 0))))
  }

  lemma ProductStep(a: bv16, b: bv16, n: nat)
    ensures Product(a, b, n + 1) == Xor(Row(a, b), Product(Shift(a), Double(b), n))
  {}

  lemma FourStepsOf(a: bv16, b: bv16)
    ensures FourShifts(a) == Shift(Shift(Shift(Shift(a))))
    ensures FourDoubles(b) == Double(Double(Double(Double(b))))
  {}

  lemma XorFive(r0: bv16, r1: bv16, r2: bv16, r3: bv16, rest: bv16)
    ensures Xor(r0, Xor(r1, Xor(r2, Xor(r3, rest)))) == Xor(Xor(r0, Xor(r1, Xor(r2, r3))), rest)
  {
    hide Xor;
    XorAssociative(r2, r3, rest);
    XorAssociative(r1, Xor(r2, r3), rest);
    XorAssociative(r0, Xor(r1, Xor(r2, r3)), rest);
  }

  lemma ProductFourSteps(a: bv16, b: bv16, n: nat)
    ensures Product(a, b, n + 4) == Xor(FourRows(a, b), Product(FourShifts(a), FourDoubles(b), n))
  {
    hide Shift, Xor, Double, Row, Product, FourShifts, FourDoubles;
    var a1, b1 := Shift(a), Double(b);
    var a2, b2 := Shift(a1), Double(b1);
    var a3, b3 := Shift(a2), Double(b2);
    ProductStep(a, b, n + 3);
    ProductStep(a1, b1, n + 2);
    ProductStep(a2, b2, n + 1);
    ProductStep(a3, b3, n);
    FourStepsOf(a, b);
    XorFive(Row(a, b), Row(a1, b1), Row(a2, b2), Row(a3, b3), Product(Shift(a3), Double(b3), n));
  }

  lemma MultiplyIsProduct(a: bv16, b: bv16)
    ensures Product(a, b, 16) == Multiply(a, b)
  {
    hide Xor, Product, FourShifts, FourDoubles, FourRows;
    var a1, b1 := FourShifts(a), FourDoubles(b);
    var a2, b2 := FourShifts(a1), FourDoubles(b1);
    var a3, b3 := FourShifts(a2), FourDoubles(b2);
    ProductFourSteps(a, b, 12);
    ProductFourSteps(a1, b1, 8);
    ProductFourSteps(a2, b2, 4);
    ProductFourSteps(a3, b3, 0);
    ProductOfNothing(FourShifts(a3), FourDoubles(b3));
  }

  lemma ProductOfNothing(a: bv16, b: bv16)
    ensures Product(a, b, 0) == 0
  {}

  // ---------------------------------------------------------------------------
  // Shifting is multiplication by a power of x
  // ---------------------------------------------------------------------------

  lemma {:induction false} ShiftsSplit(r: bv16, m: nat, n: nat)
    ensures Shifts(r, m + n) == Shifts(Shifts(r, m), n)
    decreases m
  {
    hide Shift;
    if m > 0 {
      ShiftsSplit(Shift(r), m - 1, n);
    }
  }

  lemma RowShift(a: bv16, b: bv16)
    ensures Row(Shift(a), b) == Shift(Row(a, b))
    ensures Shift(0) == 0
  {}

  lemma {:induction false} ProductShift(a: bv16, b: bv16, n: nat)
    ensures Product(Shift(a), b, n) == Shift(Product(a, b, n))
    decreases n
  {
    hide Shift, Xor, Row, Double;
    RowShift(a, b);
    if n > 0 {
      ProductShift(Shift(a), Double(b), n - 1);
      ShiftLinear(Row(a, b), Product(Shift(a), Double(b), n - 1));
    }
  }

  lemma {:induction false} ProductShifts(a: bv16, b: bv16, n: nat, k: nat)
    ensures Product(Shifts(a, k), b, n) == Shifts(Product(a, b, n), k)
    decreases k
  {
    hide Shift, Product;
    if k > 0 {
      ProductShifts(Shift(a), b, n, k - 1);
      ProductShift(a, b, n);
    }
  }

  lemma HalfLinear(x: bv16, y: bv16)
    ensures Half(Xor(x, y)) == Xor(Half(x), Half(y))
  {
    XorHalf(x, y);
  }

  lemma {:induction false} HalvesLinear(x: bv16, y: bv16, n: nat)
    ensures Halves(Xor(x, y), n) == Xor(Halves(x, n), Halves(y, n))
    decreases n
  {
    hide Half, Xor;
    if n > 0 {
      HalfLinear(x, y);
      HalvesLinear(Half(x), Half(y), n - 1);
    }
  }

  lemma {:induction false} HalvesOfZero(n: nat)
    ensures Halves(0, n) == 0
    decreases n
  {
    if n > 0 {
      assert Half(0) == 0;
      HalvesOfZero(n - 1);
    }
  }

  lemma PeelTopBit(b: bv16)
    ensures b == Xor(Row(ONE, b), Half(Double(b)))
  {
    assert b == (b & 0x8000) ^ ((b << 1) >> 1);
    assert b & 0x8000 == 0 || b & 0x8000 == 0x8000;
  }

  /** Bit `n`, counted from one at the bottom; 0 for `n` 0. */
  function UnitBit(n: nat): bv16
    requires n <= 16
  {
    match n
    case 0 => 0x0000
    case 1 => 0x0001
    case 2 => 0x0002
    case 3 => 0x0004
    case 4 => 0x0008
    case 5 => 0x0010
    case 6 => 0x0020
    case 7 => 0x0040
    case 8 => 0x0080
    case 9 => 0x0100
    case 10 => 0x0200
    case 11 => 0x0400
    case 12 => 0x0800
    case 13 => 0x1000
    case 14 => 0x2000
    case 15 => 0x4000
    case 16 => 0x8000
  }

  lemma UnitBitHalf(n: nat)
    requires 1 <= n <= 16
    ensures Half(UnitBit(n)) == UnitBit(n - 1)
    ensures n > 1 ==> Shift(UnitBit(n)) == UnitBit(n - 1)
  {}

  lemma {:induction false} HalvesOfOne(n: nat)
    requires n <= 16
    ensures Halves(ONE, n) == UnitBit(16 - n)
  {
    hide Half, UnitBit;
    if n == 0 {
      UnitBitTop();
    } else {
      HalvesOfOne(n - 1);
      HalvesSplit(ONE, n - 1, 1);
      UnitBitHalf(17 - n);
      HalvesOnce(UnitBit(17 - n));
    }
  }

  lemma HalvesOfRow(b: bv16, n: nat)
    requires n <= 16
    ensures Halves(Row(ONE, b), n) == Row(UnitBit(16 - n), b)
  {
    hide UnitBit, Half;
    HalvesOfOne(n);
    HalvesOfZero(n);
  }

  /** The rows of a product with 1 pick out the bits of the other factor. */
  lemma {:induction false} ProductOfUnit(b: bv16, n: nat, a: bv16)
    requires n <= 16 && (n > 0 ==> a == UnitBit(n))
    ensures Product(a, b, n) == Halves(b, 16 - n)
    decreases n
  {
    hide Shift, Xor, Row, Double, Half, UnitBit, Halves;
    if n == 0 {
      SixteenHalves(b);
    } else {
      UnitBitHalf(n);
      ProductOfUnit(Double(b), n - 1, Shift(a));
      PeelTopBit(b);
      HalvesLinear(Row(ONE, b), Half(Double(b)), 16 - n);
      HalvesOfRow(b, 16 - n);
      HalvesSplit(Double(b), 1, 16 - n);
      HalvesOnce(Double(b));
    }
  }

  lemma HalvesOnce(x: bv16)
    ensures Halves(x, 1) == Half(x)
  {}

  /** `k` shifts multiply by the `k`-th power of x. */
  lemma ShiftsArePower(b: bv16, k: nat)
    ensures Shifts(b, k) == Multiply(Power(k), b)
  {
    hide Product, Multiply, Shifts, Halves;
    ProductOfUnit(b, 16, ONE);
    assert UnitBit(16) == ONE;
    ProductShifts(ONE, b, 16, k);
    MultiplyIsProduct(Power(k), b);
    HalvesNone(b);
  }

  lemma HalvesNone(x: bv16)
    ensures Halves(x, 0) == x
  {}

  lemma PowerSum(m: nat, n: nat)
    ensures Power(m + n) == Multiply(Power(n), Power(m))
  {
    hide Multiply;
    ShiftsSplit(ONE, m, n);
    ShiftsArePower(Power(m), n);
  }

  // ---------------------------------------------------------------------------
  // The order of x
  // ---------------------------------------------------------------------------

  lemma PowerOne()
    ensures Power(1) == 0x4000
  {
    assert Shifts(ONE, 1) == Shift(ONE);
  }

  lemma PowerDouble(k: nat, p: bv16)
    requires Power(k) == p
    ensures Power(2 * k) == Multiply(p, p)
  {
    hide Multiply, Power;
    PowerSum(k, k);
  }

  lemma Squares1()
    ensures Multiply(0x4000, 0x4000) == 0x2000
    ensures Multiply(0x2000, 0x2000) == 0x0800
    ensures Multiply(0x0800, 0x0800) == 0x0080
    ensures Multiply(0x0080, 0x0080) == 0xA001
    ensures Multiply(0xA001, 0xA001) == 0xE801
  {
    assert Multiply(0x4000, 0x4000) == 0x2000;
    assert Multiply(0x2000, 0x2000) == 0x0800;
    assert Multiply(0x0800, 0x0800) == 0x0080;
    assert Multiply(0x0080, 0x0080) == 0xA001;
    assert Multiply(0xA001, 0xA001) == 0xE801;
  }

  lemma Squares2()
    ensures Multiply(0xE801, 0xE801) == 0xC881
    ensures Multiply(0xC881, 0xC881) == 0x6080
    ensures Multiply(0x6080, 0x6080) == 0x8801
    ensures Multiply(0x8801, 0x8801) == 0xE081
    ensures Multiply(0xE081, 0xE081) == 0x6800
  {
    assert Multiply(0xE801, 0xE801) == 0xC881;
    assert Multiply(0xC881, 0xC881) == 0x6080;
    assert Multiply(0x6080, 0x6080) == 0x8801;
    assert Multiply(0x8801, 0x8801) == 0xE081;
    assert Multiply(0xE081, 0xE081) == 0x6800;
  }

  lemma Squares3()
    ensures Multiply(0x6800, 0x6800) == 0x2880
    ensures Multiply(0x2880, 0x2880) == 0xA881
    ensures Multiply(0xA881, 0xA881) == 0x4880
    ensures Multiply(0x4880, 0x4880) == 0x8081
    ensures Multiply(0x8081, 0x8081) == 0x4000
  {
    assert Multiply(0x6800, 0x6800) == 0x2880;
    assert Multiply(0x2880, 0x2880) == 0xA881;
    assert Multiply(0xA881, 0xA881) == 0x4880;
    assert Multiply(0x4880, 0x4880) == 0x8081;
    assert Multiply(0x8081, 0x8081) == 0x4000;
  }

  /** Powers of x by repeated squaring. */
  lemma BinaryPowers()
    ensures Power(1) == 0x4000
    ensures Power(2) == 0x2000
    ensures Power(4) == 0x0800
    ensures Power(8) == 0x0080
    ensures Power(16) == 0xA001
    ensures Power(32) == 0xE801
    ensures Power(64) == 0xC881
    ensures Power(128) == 0x6080
    ensures Power(256) == 0x8801
    ensures Power(512) == 0xE081
    ensures Power(1024) == 0x6800
    ensures Power(2048) == 0x2880
    ensures Power(4096) == 0xA881
    ensures Power(8192) == 0x4880
    ensures Power(16384) == 0x8081
    ensures Power(32768) == 0x4000
  {
    hide Multiply, Power;
    PowerOne();
    Squares1();
    Squares2();
    Squares3();
    PowerDouble(1, 0x4000);
    PowerDouble(2, 0x2000);
    PowerDouble(4, 0x0800);
    PowerDouble(8, 0x0080);
    PowerDouble(16, 0xA001);
    PowerDouble(32, 0xE801);
    PowerDouble(64, 0xC881);
    PowerDouble(128, 0x6080);
    PowerDouble(256, 0x8801);
    PowerDouble(512, 0xE081);
    PowerDouble(1024, 0x6800);
    PowerDouble(2048, 0x2880);
    PowerDouble(4096, 0xA881);
    PowerDouble(8192, 0x4880);
    PowerDouble(16384, 0x8081);
  }

  lemma PowerPeriod()
    ensures Power(PERIOD) == ONE
  {
    hide Shift;
    BinaryPowers();
    ShiftsSplit(ONE, PERIOD, 1);
    ShiftsSplit(ONE, 0, 1);
    assert Shifts(Power(PERIOD), 1) == Shift(Power(PERIOD));
    assert Shifts(ONE, 1) == Shift(ONE);
    ShiftInjective(Power(PERIOD), ONE);
  }

  lemma Rows4681()
    ensures Multiply(0xE081, 0xA881) == 0x7A48
    ensures Multiply(0xC881, 0x7A48) == 0x51DE
    ensures Multiply(0x0080, 0x51DE) == 0x58D1
    ensures Multiply(0x4000, 0x58D1) == 0x8C69
  {
    assert Multiply(0xE081, 0xA881) == 0x7A48;
    assert Multiply(0xC881, 0x7A48) == 0x51DE;
    assert Multiply(0x0080, 0x51DE) == 0x58D1;
    assert Multiply(0x4000, 0x58D1) == 0x8C69;
  }

  lemma Power4681()
    ensures Power(4681) != ONE
  {
    hide Multiply, Power;
    BinaryPowers();
    Rows4681();
    PowerSum(4096, 512);
    PowerSum(4608, 64);
    PowerSum(4672, 8);
    PowerSum(4680, 1);
  }

  lemma Rows1057()
    ensures Multiply(0xE801, 0x6800) == 0xDC81
    ensures Multiply(0x4000, 0xDC81) == 0xCE41
  {
    assert Multiply(0xE801, 0x6800) == 0xDC81;
    assert Multiply(0x4000, 0xDC81) == 0xCE41;
  }

  lemma Power1057()
    ensures Power(1057) != ONE
  {
    hide Multiply, Power;
    BinaryPowers();
    Rows1057();
    PowerSum(1024, 32);
    PowerSum(1056, 1);
  }

  lemma Rows217()
    ensures Multiply(0xC881, 0x6080) == 0x6668
    ensures Multiply(0xA001, 0x6668) == 0xEAAF
    ensures Multiply(0x0080, 0xEAAF) == 0x7CAA
    ensures Multiply(0x4000, 0x7CAA) == 0x3E55
  {
    assert Multiply(0xC881, 0x6080) == 0x6668;
    assert Multiply(0xA001, 0x6668) == 0xEAAF;
    assert Multiply(0x0080, 0xEAAF) == 0x7CAA;
    assert Multiply(0x4000, 0x7CAA) == 0x3E55;
  }

  lemma Power217()
    ensures Power(217) != ONE
  {
    hide Multiply, Power;
    BinaryPowers();
    Rows217();
    PowerSum(128, 64);
    PowerSum(192, 16);
    PowerSum(208, 8);
    PowerSum(216, 1);
  }

  /** `k` shifts bring the register back to where it was. */
  ghost predicate Returns(k: nat) {
    Power(k) == ONE
  }

  lemma ReturnsSum(m: nat, n: nat)
    requires Returns(m)
    ensures Returns(m + n) <==> Returns(n)
  {
    hide Shift;
    ShiftsSplit(ONE, m, n);
  }

  lemma {:induction false} ReturnsMultiple(k: nat, c: nat)
    requires Returns(k)
    ensures Returns(k * c)
    decreases c
  {
    hide Shift;
    if c == 0 {
      assert k * c == 0;
      assert Shifts(ONE, 0) == ONE;
    } else {
      hide Power;
      ReturnsMultiple(k, c - 1);
      assert k * c == k + k * (c - 1);
      ReturnsSum(k, k * (c - 1));
    }
  }

  /** Multiples of `s`: closed under remainders, so Euclid's algorithm reaches 1 when `p`
      is prime. */
  lemma {:induction false} ReturnsEuclid(s: nat, p: nat, r: nat)
    requires 0 < r < p && Returns(s * p) && Returns(s * r)
    requires forall d | 2 <= d < p :: p % d != 0
    ensures Returns(s)
    decreases r
  {
    hide Power;
    if r == 1 {
      assert s * r == s;
    } else {
      var q, t := p / r, p % r;
      assert p % r != 0;
      ReturnsMultiple(s * r, q);
      assert s * p == (s * r) * q + s * t by {
        assert p == r * q + t;
        assert s * (r * q) == (s * r) * q;
      }
      ReturnsSum((s * r) * q, s * t);
      ReturnsEuclid(s, p, t);
    }
  }

  /** A proper factorisation of a number below 169 has a factor of at most 12. */
  lemma SmallFactor(p: nat, d: nat, e: nat)
    requires p < 169 && d * e == p && 13 <= d
    ensures e <= 12
  {
    assert d * e >= 13 * e;
  }

  lemma NoSmallFactor(p: nat, f: nat, g: nat)
    requires p == 7 || p == 31 || p == 151
    requires 2 <= f <= 12 && f < p
    ensures f * g != p
  {
    if f == 2 {} else if f == 3 {} else if f == 4 {} else if f == 5 {} else if f == 6 {}
    else if f == 7 {} else if f == 8 {} else if f == 9 {} else if f == 10 {} else if f == 11 {} else {}
  }

  lemma PrimeFactor(p: nat, d: nat)
    requires p == 7 || p == 31 || p == 151
    requires 2 <= d < p
    ensures p % d != 0
  {
    var e := p / d;
    if d * e == p {
      if d <= 12 {
        NoSmallFactor(p, d, e);
      } else {
        SmallFactor(p, d, e);
        assert e != 0 && e != 1;
        NoSmallFactor(p, e, d);
      }
    }
  }

  /** If `k` returns the register, `k` is a multiple of each prime factor of the period. */
  lemma ReturnsPrimeFactor(k: nat, s: nat, p: nat)
    requires Returns(k) && s * p == PERIOD && !Returns(s)
    requires p == 7 || p == 31 || p == 151
    ensures k % p == 0
  {
    hide Power;
    var c, r := k / p, k % p;
    if r != 0 {
      PowerPeriod();
      assert Returns(PERIOD);
      ReturnsMultiple(k, s);
      ReturnsMultiple(PERIOD, c);
      assert k * s == PERIOD * c + s * r by {
        assert k == p * c + r;
        assert (p * c) * s == (s * p) * c;
      }
      ReturnsSum(PERIOD * c, s * r);
      forall d | 2 <= d < p ensures p % d != 0 {
        PrimeFactor(p, d);
      }
      ReturnsEuclid(s, p, r);
    }
  }

  lemma CommonMultiple(k: nat)
    requires k % 7 == 0 && k % 31 == 0 && k % 151 == 0
    ensures k % PERIOD == 0
  {
    var n := Combine(k, k / 7, k / 31, k / 151);
    MultipleOfPeriod(n);
  }

  /** Bezout: 9 * 7 - 2 * 31 == 1 and 135 * 217 - 194 * 151 == 1. */
  lemma Combine(k: int, a: int, b: int, c: int) returns (n: int)
    requires k == 7 * a && k == 31 * b && k == 151 * c
    ensures k == PERIOD * n
  {
    var m := 9 * b - 2 * a;
    assert k == 217 * m;
    n := 135 * c - 194 * m;
  }

  lemma MultipleOfPeriod(n: int)
    ensures (PERIOD * n) % PERIOD == 0
  {}

  /** The register has period 32767. */
  lemma PeriodExactly(k: nat)
    ensures Returns(k) <==> k % PERIOD == 0
  {
    hide Power;
    if Returns(k) {
      Power4681();
      Power1057();
      Power217();
      ReturnsPrimeFactor(k, 4681, 7);
      ReturnsPrimeFactor(k, 1057, 31);
      ReturnsPrimeFactor(k, 217, 151);
      CommonMultiple(k);
    }
    if k % PERIOD == 0 {
      PowerPeriod();
      ReturnsMultiple(PERIOD, k / PERIOD);
      assert PERIOD * (k / PERIOD) == k;
    }
  }

  // ---------------------------------------------------------------------------
  // Two flipped bits
  // ---------------------------------------------------------------------------

  lemma {:induction false} FeedClearIsShifts(r: bv16, bits: seq<bool>)
    requires AllClear(bits)
    ensures FeedBits(r, bits) == Shifts(r, |bits|)
    decreases |bits|
  {
    hide Shift, Xor;
    if bits != [] {
      assert BitWord(bits[0]) == 0;
      XorZero(r);
      FeedClearIsShifts(Shift(r), bits[1..]);
    }
  }

  lemma UnitReturns(k: nat)
    ensures Shifts(1, k) == 1 <==> Returns(k)
  {
    hide Shift;
    UnitPower();
    ShiftsSplit(ONE, 15, k);
    ShiftsSplit(ONE, k, 15);
    if Shifts(1, k) == 1 {
      ShiftsInjective(Power(k), ONE, 15);
    }
  }

  lemma UnitPower()
    ensures Shifts(ONE, 15) == 1
  {
    HalvesOfOne(15);
    assert UnitBit(1) == 1;
    hide Shift, Half, UnitBit;
    ShiftsOfUnit(15);
  }

  lemma {:induction false} ShiftsOfUnit(n: nat)
    requires n <= 15
    ensures Shifts(ONE, n) == UnitBit(16 - n)
  {
    hide Shift, UnitBit;
    if n == 0 {
      UnitBitTop();
    } else {
      ShiftsOfUnit(n - 1);
      ShiftsSplit(ONE, n - 1, 1);
      UnitBitHalf(17 - n);
      ShiftsOnce(UnitBit(17 - n));
    }
  }

  lemma UnitBitTop()
    ensures UnitBit(16) == ONE
  {}

  lemma ShiftsOnce(r: bv16)
    ensures Shifts(r, 1) == Shift(r)
  {}

  lemma {:induction false} ShiftsInjective(x: bv16, y: bv16, n: nat)
    requires Shifts(x, n) == Shifts(y, n)
    ensures x == y
    decreases n
  {
    hide Shift;
    if n > 0 {
      ShiftsInjective(Shift(x), Shift(y), n - 1);
      ShiftInjective(x, y);
    }
  }

  /** Exactly the bits `i` and `j` are set. */
  ghost predicate TwoBits(bits: seq<bool>, i: nat, j: nat) {
    i < j < |bits| && forall k | 0 <= k < |bits| :: bits[k] <==> k == i || k == j
  }

  lemma SecondBit(r: bv16)
    ensures Shift(Xor(r, BitWord(true))) == 0 <==> r == 1
  {
    ShiftZero(Xor(r, 1));
    XorIsZero(r);
  }

  lemma XorIsZero(r: bv16)
    ensures Xor(r, 1) == 0 <==> r == 1
  {}

  lemma FirstFeed()
    ensures Xor(0, BitWord(true)) == 1
  {}

  lemma TwoBitsRegister(bits: seq<bool>, i: nat, j: nat)
    requires TwoBits(bits, i, j)
    ensures FeedBits(0, bits) == 0 <==> (j - i) % PERIOD == 0
  {
    hide Shift, Xor, BitWord, Power;
    var gap := bits[i + 1..j];
    var tail := [true] + bits[j + 1..];
    assert bits == bits[..i] + ([true] + gap + tail);
    FeedBitsAppend(0, bits[..i], [true] + gap + tail);
    FeedZeros(0, bits[..i]);
    FeedBitsAppend(0, [true] + gap, tail);
    FirstFeed();
    assert ([true] + gap)[1..] == gap;
    FeedClearIsShifts(Shift(1), gap);
    var r := Shifts(1, j - i);
    assert FeedBits(0, [true] + gap) == r;
    assert tail[1..] == bits[j + 1..];
    FeedZeros(Shift(Xor(r, BitWord(true))), bits[j + 1..]);
    SecondBit(r);
    UnitReturns(j - i);
    PeriodExactly(j - i);
  }

  /** Two flipped bits in the covered bytes go unnoticed exactly when their distance is a
      multiple of 32767 bits; a message below 4096 bytes has no such pair. */
  lemma TwoBitsDetectedExactly(data: seq<Byte>, error: seq<Byte>, i: nat, j: nat)
    requires |error| == |data| && TwoBits(Bits(error), i, j)
    ensures CrcField(XorBytes(data, error), 2) == CrcField(data, 2) <==> (j - i) % PERIOD == 0
    ensures |data| < 4096 ==> CrcField(XorBytes(data, error), 2) != CrcField(data, 2)
  {
    hide Bits, FeedBits, XorBytes, CrcField, WordBytes;
    TwoBitsRegister(Bits(error), i, j);
    UndetectedExactly(data, error, 0);
    XorNothing(CrcField(data, 2));
  }
}
