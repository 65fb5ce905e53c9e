/** The order of x modulo the generator, and which double errors the checksum misses. */
module CrcOrder {
  import opened Gf2
  import opened Iteration
  import opened CrcRegister
  import opened CrcWord
  import opened CrcDetection

  // ---- Products of registers ----

  /** a * v modulo the generator, one exponent of v at a time from exponent i on. */
  function Product(a: Poly, v: Poly, i: nat): Poly
    decreases 16 - i
  {
    if i >= 16 then {} else Add(if i in v then a else {}, Product(Shift(a), v, i + 1))
  }

  lemma ShiftZero()
    ensures Shift({}) == {}
  {
    assert Times({}, 1) == {};
  }

  lemma {:induction false} ShiftProduct(a: Poly, v: Poly, i: nat)
    ensures Shift(Product(a, v, i)) == Product(Shift(a), v, i)
    decreases 16 - i
  {
    hide Shift, Add;
    ShiftZero();
    if i < 16 {
      ShiftProduct(Shift(a), v, i + 1);
      ShiftLinear(if i in v then a else {}, Product(Shift(a), v, i + 1));
    }
  }

  lemma ShiftNProduct(n: nat, a: Poly, v: Poly)
    ensures ShiftN(n, Product(a, v, 0)) == Product(ShiftN(n, a), v, 0)
  {
    hide Shift, Product;
    var h := p => Product(p, v, 0);
    forall p ensures h(Shift(p)) == Shift(h(p)) { ShiftProduct(p, v, 0); }
    IterateMaps(n, Shift, Shift, h, a);
  }

  lemma {:induction false} UnitProduct(v: Poly, i: nat)
    requires i <= 16 && IsRegister(v)
    ensures Product({i}, v, i) == set e | e in v && i <= e
    decreases 16 - i
  {
    if i < 16 {
      if i < 15 {
        assert Shift({i}) == {i + 1};
        UnitProduct(v, i + 1);
      } else {
        assert Product(Shift({i}), v, i + 1) == {};
      }
    }
  }

  /** n shifts of v are the product of v with n shifts of 1. */
  lemma ShiftNIsProduct(n: nat, v: Poly)
    requires IsRegister(v)
    ensures ShiftN(n, v) == Product(ShiftN(n, {0}), v, 0)
  {
    hide Shift, Product, Iterate;
    UnitProduct(v, 0);
    assert v == set e | e in v && 0 <= e;
    ShiftNProduct(n, {0}, v);
  }

  function Term(a: bv16, b: bv16, m: bv16): bv16 {
    if HasBit(b, m) then a else 0
  }

  function ShiftFour(a: bv16): bv16 {
    ShiftWord(ShiftWord(ShiftWord(ShiftWord(a))))
  }

  /** Four terms of a product, for the bit m of b and the three above it, added to the rest. */
  function Quarter(a: bv16, b: bv16, m: bv16, rest: bv16): bv16 {
    XorWord(Term(a, b, m),
    XorWord(Term(ShiftWord(a), b, Double(m)),
    XorWord(Term(ShiftWord(ShiftWord(a)), b, Double(Double(m))),
    XorWord(Term(ShiftWord(ShiftWord(ShiftWord(a))), b, Double(Double(Double(m)))), rest))))
  }

  /** The product of two words modulo the generator, unrolled. */
  function MulWord(a: bv16, b: bv16): bv16 {
    var a4 := ShiftFour(a);
    var a8 := ShiftFour(a4);
    Quarter(a, b, 0x0001, Quarter(a4, b, 0x0010, Quarter(a8, b, 0x0100, Quarter(ShiftFour(a8), b, 0x1000, 0))))
  }

  function MulFrom(a: bv16, b: bv16, i: nat): bv16
    decreases 16 - i
  {
    if i >= 16 then 0 else XorWord(Term(a, b, MASKS[15 - i]), MulFrom(ShiftWord(a), b, i + 1))
  }

  lemma MulFromQuarter(a: bv16, b: bv16, i: nat)
    requires i <= 12
    ensures MulFrom(a, b, i) == Quarter(a, b, MASKS[15 - i], MulFrom(ShiftFour(a), b, i + 4))
  {
    hide XorWord, ShiftWord, Term, Double, HasBit, OneBit;
    var a1 := ShiftWord(a);
    var a2 := ShiftWord(a1);
    Masks(14 - i);
    Masks(13 - i);
    Masks(12 - i);
    assert MulFrom(a2, b, i + 2) ==
           XorWord(Term(a2, b, MASKS[13 - i]), MulFrom(ShiftWord(a2), b, i + 3));
    assert MulFrom(a, b, i) == XorWord(Term(a, b, MASKS[15 - i]), MulFrom(a1, b, i + 1));
  }

  lemma MulFromEnd(a: bv16, b: bv16)
    ensures MulFrom(a, b, 16) == 0
  {}

  lemma MulWordUnrolls(a: bv16, b: bv16)
    ensures MulWord(a, b) == MulFrom(a, b, 0)
  {
    hide Quarter, ShiftFour, MulFrom;
    assert MASKS[15] == 0x0001 && MASKS[11] == 0x0010 && MASKS[7] == 0x0100 && MASKS[3] == 0x1000;
    MulFromEnd(ShiftFour(ShiftFour(ShiftFour(ShiftFour(a)))), b);
    var a4 := ShiftFour(a);
    var a8 := ShiftFour(a4);
    MulFromQuarter(a, b, 0);
    MulFromQuarter(a4, b, 4);
    MulFromQuarter(a8, b, 8);
    MulFromQuarter(ShiftFour(a8), b, 12);
  }

  lemma {:induction false} LoadMulFrom(a: bv16, b: bv16, i: nat)
    ensures Load(MulFrom(a, b, i)) == Product(Load(a), Load(b), i)
    decreases 16 - i
  {
    hide XorWord, ShiftWord, HasBit, Shift, Add, Window;
    LoadIsRegister(0);
    if i < 16 {
      LoadMulFrom(ShiftWord(a), b, i + 1);
      LoadShift(a);
      LoadXor(Term(a, b, MASKS[15 - i]), MulFrom(ShiftWord(a), b, i + 1));
      WindowStage(WordBits(b), i);
    }
  }

  // ---- Powers of x ----

  /** w holds x^n modulo the generator. */
  ghost predicate IsPower(n: nat, w: bv16) {
    ShiftN(n, {0}) == Load(w)
  }

  lemma PowerTimes(m: nat, a: bv16, n: nat, b: bv16)
    requires IsPower(m, a) && IsPower(n, b)
    ensures IsPower(m + n, MulWord(a, b))
  {
    hide Shift, Load, MulWord, MulFrom, Product;
    IterateAdds(n, m, Shift, {0});
    LoadIsRegister(b);
    ShiftNIsProduct(m, Load(b));
    LoadMulFrom(a, b, 0);
    MulWordUnrolls(a, b);
  }

  lemma FirstPower()
    ensures IsPower(1, 2) && Load(1) == {0}
  {
    LoadOne();
    assert ShiftWord(1) == 2;
    LoadShift(1);
  }

  lemma LoadOne()
    ensures Load(1) == {0}
  {
    forall e: nat ensures e in Load(1) <==> e == 0 {
      WindowStage(WordBits(1), e);
    }
  }

  lemma Product00020002()
    ensures MulWord(0x0002, 0x0002) == 0x0004
  {}

  lemma Product00040004()
    ensures MulWord(0x0004, 0x0004) == 0x0010
  {}

  lemma Product00100010()
    ensures MulWord(0x0010, 0x0010) == 0x0100
  {}

  lemma Product01000100()
    ensures MulWord(0x0100, 0x0100) == 0x1021
  {}

  lemma Product10211021()
    ensures MulWord(0x1021, 0x1021) == 0x3730
  {}

  lemma Product37303730()
    ensures MulWord(0x3730, 0x3730) == 0xB861
  {}

  lemma ProductB861B861()
    ensures MulWord(0xB861, 0xB861) == 0xAEFC
  {}

  lemma ProductAEFCAEFC()
    ensures MulWord(0xAEFC, 0xAEFC) == 0x8E29
  {}

  lemma Product8E298E29()
    ensures MulWord(0x8E29, 0x8E29) == 0x13FC
  {}

  lemma Product13FC13FC()
    ensures MulWord(0x13FC, 0x13FC) == 0x36C4
  {}

  lemma Product36C436C4()
    ensures MulWord(0x36C4, 0x36C4) == 0xFD50
  {}

  lemma ProductFD50FD50()
    ensures MulWord(0xFD50, 0xFD50) == 0xAA9E
  {}

  lemma ProductAA9EAA9E()
    ensures MulWord(0xAA9E, 0xAA9E) == 0x881C
  {}

  lemma Product881C881C()
    ensures MulWord(0x881C, 0x881C) == 0x4458
  {}

  lemma Product00020100()
    ensures MulWord(0x0002, 0x0100) == 0x0200
  {}

  lemma Product02001021()
    ensures MulWord(0x0200, 0x1021) == 0x6662
  {}

  lemma Product6662B861()
    ensures MulWord(0x6662, 0xB861) == 0xDE8A
  {}

  lemma ProductDE8AAEFC()
    ensures MulWord(0xDE8A, 0xAEFC) == 0x48E3
  {}

  lemma Product00023730()
    ensures MulWord(0x0002, 0x3730) == 0x6E60
  {}

  lemma Product6E6036C4()
    ensures MulWord(0x6E60, 0x36C4) == 0xF2AF
  {}

  lemma Product0200B861()
    ensures MulWord(0x0200, 0xB861) == 0x8FA6
  {}

  lemma Product8FA613FC()
    ensures MulWord(0x8FA6, 0x13FC) == 0x4500
  {}

  lemma Product4500AA9E()
    ensures MulWord(0x4500, 0xAA9E) == 0x2C42
  {}

  lemma Product00020004()
    ensures MulWord(0x0002, 0x0004) == 0x0008
  {}

  lemma Product00080010()
    ensures MulWord(0x0008, 0x0010) == 0x0080
  {}

  lemma Product00800100()
    ensures MulWord(0x0080, 0x0100) == 0x8000
  {}

  lemma Product80001021()
    ensures MulWord(0x8000, 0x1021) == 0x1B98
  {}

  lemma Product1B983730()
    ensures MulWord(0x1B98, 0x3730) == 0xD420
  {}

  lemma ProductD420B861()
    ensures MulWord(0xD420, 0xB861) == 0x577E
  {}

  lemma Product577EAEFC()
    ensures MulWord(0x577E, 0xAEFC) == 0xCF04
  {}

  lemma ProductCF048E29()
    ensures MulWord(0xCF04, 0x8E29) == 0x09FE
  {}

  lemma Product09FE13FC()
    ensures MulWord(0x09FE, 0x13FC) == 0x1B62
  {}

  lemma Product1B6236C4()
    ensures MulWord(0x1B62, 0x36C4) == 0x7EA8
  {}

  lemma Product7EA8FD50()
    ensures MulWord(0x7EA8, 0xFD50) == 0x554F
  {}

  lemma Product554FAA9E()
    ensures MulWord(0x554F, 0xAA9E) == 0x440E
  {}

  lemma Product440E881C()
    ensures MulWord(0x440E, 0x881C) == 0x222C
  {}

  lemma Product222C4458()
    ensures MulWord(0x222C, 0x4458) == 0x0001
  {}

  /** x^32767 is 1; x^217, x^1057 and x^4681 are not. */
  lemma Powers()
    ensures IsPower(217, 0x48E3) && IsPower(1057, 0xF2AF) && IsPower(4681, 0x2C42)
    ensures IsPower(32767, 0x0001)
  {
    FirstPower();
    Product00020002();
    Product00040004();
    Product00100010();
    Product01000100();
    Product10211021();
    Product37303730();
    ProductB861B861();
    ProductAEFCAEFC();
    Product8E298E29();
    Product13FC13FC();
    Product36C436C4();
    ProductFD50FD50();
    ProductAA9EAA9E();
    Product881C881C();
    Product00020100();
    Product02001021();
    Product6662B861();
    ProductDE8AAEFC();
    Product00023730();
    Product6E6036C4();
    Product0200B861();
    Product8FA613FC();
    Product4500AA9E();
    Product00020004();
    Product00080010();
    Product00800100();
    Product80001021();
    Product1B983730();
    ProductD420B861();
    Product577EAEFC();
    ProductCF048E29();
    Product09FE13FC();
    Product1B6236C4();
    Product7EA8FD50();
    Product554FAA9E();
    Product440E881C();
    Product222C4458();
    hide IsPower, MulWord;
    PowerTimes(1, 0x0002, 1, 0x0002);
    PowerTimes(2, 0x0004, 2, 0x0004);
    PowerTimes(4, 0x0010, 4, 0x0010);
    PowerTimes(8, 0x0100, 8, 0x0100);
    PowerTimes(16, 0x1021, 16, 0x1021);
    PowerTimes(32, 0x3730, 32, 0x3730);
    PowerTimes(64, 0xB861, 64, 0xB861);
    PowerTimes(128, 0xAEFC, 128, 0xAEFC);
    PowerTimes(256, 0x8E29, 256, 0x8E29);
    PowerTimes(512, 0x13FC, 512, 0x13FC);
    PowerTimes(1024, 0x36C4, 1024, 0x36C4);
    PowerTimes(2048, 0xFD50, 2048, 0xFD50);
    PowerTimes(4096, 0xAA9E, 4096, 0xAA9E);
    PowerTimes(8192, 0x881C, 8192, 0x881C);
    PowerTimes(1, 0x0002, 8, 0x0100);
    PowerTimes(9, 0x0200, 16, 0x1021);
    PowerTimes(25, 0x6662, 64, 0xB861);
    PowerTimes(89, 0xDE8A, 128, 0xAEFC);
    PowerTimes(1, 0x0002, 32, 0x3730);
    PowerTimes(33, 0x6E60, 1024, 0x36C4);
    PowerTimes(9, 0x0200, 64, 0xB861);
    PowerTimes(73, 0x8FA6, 512, 0x13FC);
    PowerTimes(585, 0x4500, 4096, 0xAA9E);
    PowerTimes(1, 0x0002, 2, 0x0004);
    PowerTimes(3, 0x0008, 4, 0x0010);
    PowerTimes(7, 0x0080, 8, 0x0100);
    PowerTimes(15, 0x8000, 16, 0x1021);
    PowerTimes(31, 0x1B98, 32, 0x3730);
    PowerTimes(63, 0xD420, 64, 0xB861);
    PowerTimes(127, 0x577E, 128, 0xAEFC);
    PowerTimes(255, 0xCF04, 256, 0x8E29);
    PowerTimes(511, 0x09FE, 512, 0x13FC);
    PowerTimes(1023, 0x1B62, 1024, 0x36C4);
    PowerTimes(2047, 0x7EA8, 2048, 0xFD50);
    PowerTimes(4095, 0x554F, 4096, 0xAA9E);
    PowerTimes(8191, 0x440E, 8192, 0x881C);
    PowerTimes(16383, 0x222C, 16384, 0x4458);
  }

  // ---- The order ----

  /** n shifts bring 1 back to 1. */
  ghost predicate Returns(n: nat) {
    ShiftN(n, {0}) == {0}
  }

  lemma KnownReturns()
    ensures Returns(32767) && !Returns(217) && !Returns(1057) && !Returns(4681)
  {
    Powers();
    LoadOne();
    if Returns(217) { LoadInjective(0x48E3, 1); }
    if Returns(1057) { LoadInjective(0xF2AF, 1); }
    if Returns(4681) { LoadInjective(0x2C42, 1); }
  }

  lemma ReturnsAdd(m: nat, n: nat)
    requires Returns(m)
    ensures Returns(m + n) <==> Returns(n)
  {
    hide Shift;
    IterateAdds(m, n, Shift, {0});
  }

  lemma {:induction false} ReturnsMultiple(m: nat, k: nat)
    requires Returns(m)
    ensures Returns(k * m)
  {
    hide ShiftN;
    if k == 0 {
      ReturnsZero();
    } else {
      ReturnsMultiple(m, k - 1);
      ReturnsAdd(m, (k - 1) * m);
      assert k * m == m + (k - 1) * m;
    }
  }

  lemma ReturnsZero()
    ensures Returns(0)
  {}

  /** Two multiples of c that return have a common one made from a common divisor. */
  lemma {:induction false} ReturnsGcd(c: nat, m: nat, n: nat) returns (g: nat, a: nat, b: nat)
    requires 0 < m && 0 < n && Returns(c * m) && Returns(c * n)
    ensures Returns(c * g) && m == g * a && n == g * b
    decreases m + n
  {
    hide Returns;
    if m == n {
      g, a, b := m, 1, 1;
    } else if m < n {
      assert c * n == c * m + c * (n - m);
      ReturnsAdd(c * m, c * (n - m));
      g, a, b := ReturnsGcd(c, m, n - m);
      assert g * (a + b) == g * a + g * b;
      b := a + b;
    } else {
      assert c * m == c * n + c * (m - n);
      ReturnsAdd(c * n, c * (m - n));
      g, a, b := ReturnsGcd(c, m - n, n);
      assert g * (a + b) == g * a + g * b;
      a := a + b;
    }
  }

  lemma NoFactors(p: nat, g: nat, a: nat)
    requires (p == 7 || p == 31 || p == 151) && g * a == p
    ensures g == 1 || a == 1
  {
    if g > 12 && a > 12 {
      MulMonotone(13, g, 13, a);
    } else if 1 < g <= 12 && a > 1 {
      SmallFactor(p, g, a);
    } else if 1 < a <= 12 && g > 1 {
      SmallFactor(p, a, g);
    }
  }

  lemma MulMonotone(a: nat, b: nat, c: nat, d: nat)
    requires a <= b && c <= d
    ensures a * c <= b * d
  {}

  lemma SmallFactor(p: nat, g: nat, a: nat)
    requires (p == 7 || p == 31 || p == 151) && 1 < g <= 12 && 1 < a
    ensures g * a != p
  {
    if g == 2 { assert g * a == 2 * a; }
    else if g == 3 { assert g * a == 3 * a; }
    else if g == 4 { assert g * a == 4 * a; }
    else if g == 5 { assert g * a == 5 * a; }
    else if g == 6 { assert g * a == 6 * a; }
    else if g == 7 { assert g * a == 7 * a; }
    else if g == 8 { assert g * a == 8 * a; }
    else if g == 9 { assert g * a == 9 * a; }
    else if g == 10 { assert g * a == 10 * a; }
    else if g == 11 { assert g * a == 11 * a; }
    else { assert g * a == 12 * a; }
  }

  /** A return is a multiple of p when 32767 / p is not one. */
  lemma PrimeDivides(c: nat, p: nat, n: nat)
    requires (p == 7 || p == 31 || p == 151) && c * p == 32767
    requires Returns(32767) && !Returns(c) && Returns(n)
    ensures n % p == 0
  {
    hide Returns;
    if n > 0 {
      ReturnsMultiple(n, c);
      var g, a, b := ReturnsGcd(c, p, n);
      NoFactors(p, g, a);
      assert g != 1;
      assert n == p * b;
    }
  }

  lemma AllThree(n: nat)
    requires n % 7 == 0 && n % 31 == 0 && n % 151 == 0
    ensures n % 32767 == 0
  {
    Multiple(n, n / 7, n / 31, n / 151);
    MultipleMod(n, 135 * (n / 151) - 194 * (9 * (n / 31) - 2 * (n / 7)));
  }

  lemma Multiple(n: int, a: int, b: int, c: int)
    requires n == 7 * a && n == 31 * b && n == 151 * c
    ensures n == 32767 * (135 * c - 194 * (9 * b - 2 * a))
  {
    var k := 9 * b - 2 * a;
    assert n == 217 * k;
  }

  lemma MultipleMod(n: int, m: int)
    requires n == 32767 * m
    ensures n % 32767 == 0
  {}

  /** The order of x modulo the generator is 32767. */
  lemma OrderOfX(n: nat)
    ensures Returns(n) <==> n % 32767 == 0
  {
    KnownReturns();
    hide Returns;
    if Returns(n) {
      PrimeDivides(4681, 7, n);
      PrimeDivides(1057, 31, n);
      PrimeDivides(217, 151, n);
      AllThree(n);
    }
    if n % 32767 == 0 {
      ReturnsMultiple(32767, n / 32767);
    }
  }

  // ---- Double errors ----

  lemma TopReturns(n: nat)
    ensures ShiftN(n, {15}) == {15} <==> Returns(n)
  {
    hide Shift;
    LoadShiftOnes();
    IterateAdds(15, n, Shift, {0});
    IterateAdds(n, 15, Shift, {0});
    ShiftNIsRegister(n, {0});
    if ShiftN(15, ShiftN(n, {0})) == ShiftN(15, {0}) {
      ShiftNInjective(15, ShiftN(n, {0}), {0});
    }
  }

  lemma LoadShiftOnes()
    ensures ShiftN(15, {0}) == {15}
  {
    SingleShifts(15);
  }

  lemma {:induction false} SingleShifts(k: nat)
    requires k <= 15
    ensures ShiftN(k, {0}) == {k}
  {
    if k > 0 {
      SingleShifts(k - 1);
      IterateAdds(k - 1, 1, Shift, {0});
      assert Shift({k - 1}) == {k};
    }
  }

  lemma FlippedStep(r: Poly, d: Poly, b: bool)
    ensures BitStep(Add(r, d), !b) == Add(BitStep(r, b), Shift(Add(d, {15})))
  {
    assert Add(Add(r, d), Window([!b])) == Add(Add(r, Window([b])), Add(d, {15})) by {
      forall e: nat ensures (e in Window([!b])) == ((e in Window([b])) != (e == 15)) {
        WindowStage([!b], e);
        WindowStage([b], e);
      }
    }
    ShiftLinear(Add(r, Window([b])), Add(d, {15}));
  }

  lemma {:induction false} DifferenceShifts(r: Poly, d: Poly, w: seq<bool>)
    ensures BitCrc(Add(r, d), w) == Add(BitCrc(r, w), ShiftN(|w|, d))
    decreases |w|
  {
    hide Shift, Add, Window;
    if w != [] {
      SameStep(r, d, w[0]);
      DifferenceShifts(BitStep(r, w[0]), Shift(d), w[1..]);
    }
  }

  lemma SameStep(r: Poly, d: Poly, b: bool)
    ensures BitStep(Add(r, d), b) == Add(BitStep(r, b), Shift(d))
  {
    assert Add(Add(r, d), Window([b])) == Add(Add(r, Window([b])), d);
    ShiftLinear(Add(r, Window([b])), d);
  }

  /** The difference two flips leave in the register. */
  function DoubleDifference(n: nat): Poly {
    Shift(Add(ShiftN(n, Shift({15})), {15}))
  }

  lemma DoubleDifferenceZero(n: nat)
    ensures DoubleDifference(n) == {} <==> Returns(n + 1)
    ensures IsRegister(DoubleDifference(n))
  {
    TopReturns(n + 1);
    hide Shift;
    var d := ShiftN(n, Shift({15}));
    assert d == ShiftN(n + 1, {15});
    ShiftNIsRegister(n + 1, {15});
    ShiftZero();
    ShiftIsRegister(Add(d, {15}));
    if DoubleDifference(n) == {} {
      ShiftInjective(Add(d, {15}), {});
      assert Add({15}, {15}) == {};
      AddCancels(d, {15}, {15});
    }
    if d == {15} {
      assert Add(d, {15}) == {};
    }
  }

  lemma FlippedTwice(r: Poly, b: bool, mid: seq<bool>, c: bool)
    ensures BitCrc(r, [!b] + mid + [!c]) == Add(BitCrc(r, [b] + mid + [c]), DoubleDifference(|mid|))
  {
    var d := Shift({15});
    var s := BitStep(r, b);
    FlippedFirst(r, b);
    DifferenceShifts(s, d, mid);
    FlippedStep(BitCrc(s, mid), ShiftN(|mid|, d), c);
    Sandwich(r, b, mid, c);
    Sandwich(r, !b, mid, !c);
  }

  lemma FlippedFirst(r: Poly, b: bool)
    ensures BitStep(r, !b) == Add(BitStep(r, b), Shift({15}))
  {
    assert Add(r, {}) == r && Add({}, {15}) == {15};
    FlippedStep(r, {}, b);
  }

  lemma Sandwich(r: Poly, b: bool, mid: seq<bool>, c: bool)
    ensures BitCrc(r, [b] + mid + [c]) == BitStep(BitCrc(BitStep(r, b), mid), c)
  {
    hide BitStep;
    BitCrcAppend(r, [b] + mid, [c]);
    BitCrcAppend(r, [b], mid);
    assert [b][1..] == [] && [c][1..] == [];
  }

  /** Two flipped bits go unnoticed exactly when their distance is a multiple of 32767. */
  lemma DoubleErrorDetected(init: Poly, p: seq<bool>, b: bool, mid: seq<bool>, c: bool, s: seq<bool>)
    requires IsRegister(init)
    ensures BitCrc(init, p + ([b] + mid + [c]) + s) == BitCrc(init, p + ([!b] + mid + [!c]) + s) <==>
            (|mid| + 1) % 32767 == 0
  {
    hide DoubleDifference, Returns, Shift;
    var v, w := [b] + mid + [c], [!b] + mid + [!c];
    var r, d := BitCrc(init, p), DoubleDifference(|mid|);
    FlippedTwice(r, b, mid, c);
    DoubleDifferenceZero(|mid|);
    OrderOfX(|mid| + 1);
    BitCrcIsRegister(init, p);
    BitCrcIsRegister(r, v);
    BitCrcIsRegister(r, w);
    var x := BitCrc(r, v);
    assert Add(x, d) == x <==> d == {} by {
      if Add(x, d) == x { forall e: nat ensures e !in d { assert e in Add(x, d) <==> e in x; } }
    }
    if Add(x, d) != x { BitCrcInjective(x, Add(x, d), s); }
    BitCrcAppend(init, p + v, s);
    BitCrcAppend(init, p, v);
    BitCrcAppend(init, p + w, s);
    BitCrcAppend(init, p, w);
  }

  lemma SplitAtTwo(x: seq<bool>, i: nat, j: nat)
    requires i < j < |x|
    ensures x == x[..i] + ([x[i]] + x[i + 1..j] + [x[j]]) + x[j + 1..]
  {
    assert x[i..j + 1] == [x[i]] + x[i + 1..j] + [x[j]];
  }

  /** Messages that differ in exactly two bits have one CRC exactly when the bits are a multiple of 32767 apart. */
  lemma TwoBitErrorDetected(init: Poly, a: seq<bv8>, b: seq<bv8>, i: nat, j: nat)
    requires IsRegister(init) && |a| == |b| && i < j < 8 * |a|
    requires forall k | 0 <= k < 8 * |a| :: Bits(a)[k] != Bits(b)[k] <==> k == i || k == j
    ensures Crc(init, a) == Crc(init, b) <==> (j - i) % 32767 == 0
  {
    var x, y := Bits(a), Bits(b);
    var p, mid, s := x[..i], x[i + 1..j], x[j + 1..];
    hide Bits, Crc, BitCrc;
    SplitAtTwo(x, i, j);
    SplitAtTwo(y, i, j);
    assert y[..i] == p && y[i + 1..j] == mid && y[j + 1..] == s;
    assert y[i] == !x[i] && y[j] == !x[j];
    DoubleErrorDetected(init, p, x[i], mid, x[j], s);
    CrcIsBitCrc(init, a);
    CrcIsBitCrc(init, b);
  }
}
