/** The powers of x modulo the generator of the CRC: x^n is 1 exactly for the multiples of 32767. */
module Crc16Powers {
  import opened Arithmetic
  import opened Gf2
  import opened Gf2Division
  import opened Crc16

  // ----- powers of x modulo the generator

  function XPower(n: nat): bv16 { Shifts(1, n) }

  lemma {:induction false} ShiftsAdd(r: bv16, m: nat, n: nat)
    ensures Shifts(r, m + n) == Shifts(Shifts(r, m), n)
    decreases m
  {
    hide Shift;
    if m > 0 {
      ShiftsAdd(Shift(r), m - 1, n);
    }
  }

  lemma ShiftsLast(r: bv16, n: nat)
    ensures Shifts(r, n + 1) == Shift(Shifts(r, n))
  {
    hide Shift;
    ShiftsAdd(r, n, 1);
    assert Shifts(Shifts(r, n), 1) == Shifts(Shift(Shifts(r, n)), 0);
  }

  lemma ShiftXor(a: bv16, b: bv16)
    ensures Shift(Xor(a, b)) == Xor(Shift(a), Shift(b))
  {
    hide Shift, Xor;
    ShiftsXor(a, b, 1);
    assert Shifts(Xor(a, b), 1) == Shifts(Shift(Xor(a, b)), 0);
    assert Shifts(a, 1) == Shifts(Shift(a), 0) && Shifts(b, 1) == Shifts(Shift(b), 0);
  }

  lemma ShiftsInjective(a: bv16, b: bv16, n: nat)
    ensures Shifts(a, n) == Shifts(b, n) <==> a == b
  {
    hide Shifts, Xor;
    ShiftsXor(a, b, n);
    XorZero(a, b);
    XorZero(Shifts(a, n), Shifts(b, n));
    ShiftsZero(Xor(a, b), n);
  }

  // ----- squaring

  /** p at x^2, modulo the generator. */
  function AtSquare(p: Poly): bv16 {
    if p == [] then 0
    else
      var n := |p| - 1;
      Xor(if p[n] then XPower(2 * n) else 0, AtSquare(p[..n]))
  }

  lemma {:induction false} AtSquareAdd(p: Poly, q: Poly)
    requires |p| == |q|
    ensures AtSquare(Add(p, q)) == Xor(AtSquare(p), AtSquare(q))
  {
    hide Xor, XPower;
    if p == [] {
      XorLaws(0, 0, 0);
    } else {
      var n := |p| - 1;
      assert Add(p, q)[..n] == Add(p[..n], q[..n]);
      AtSquareAdd(p[..n], q[..n]);
      var t := XPower(2 * n);
      var tp, tq := if p[n] then t else 0, if q[n] then t else 0;
      XorLaws(t, 0, 0);
      XorLaws(0, 0, 0);
      assert (if Add(p, q)[n] then t else 0) == Xor(tp, tq);
      XorSwap(tp, tq, AtSquare(p[..n]), AtSquare(q[..n]));
    }
  }

  lemma XorSwap(a: bv16, b: bv16, c: bv16, d: bv16)
    ensures Xor(Xor(a, b), Xor(c, d)) == Xor(Xor(a, c), Xor(b, d))
  {
    hide Xor;
    XorLaws(a, b, Xor(c, d));
    XorLaws(b, c, d);
    XorLaws(c, b, d);
    XorLaws(a, c, Xor(b, d));
  }

  /** Multiplying by x moves a polynomial at x^2 by two places. */
  lemma {:induction false} AtSquareShift(p: Poly)
    ensures AtSquare([false] + p) == Shift(Shift(AtSquare(p)))
  {
    hide Xor, XPower, Shift;
    if p == [] {
      assert ([false] + p)[..0] == [];
      XorLaws(0, 0, 0);
      ShiftZero(0);
    } else {
      var n := |p| - 1;
      assert ([false] + p)[..n + 1] == [false] + p[..n];
      AtSquareShift(p[..n]);
      var t := if p[n] then XPower(2 * n) else 0;
      TwoPlaces(n);
      ShiftZero(0);
      ShiftXor(t, AtSquare(p[..n]));
      ShiftXor(Shift(t), Shift(AtSquare(p[..n])));
    }
  }

  lemma TwoPlaces(n: nat)
    ensures XPower(2 * n + 2) == Shift(Shift(XPower(2 * n)))
  {
    hide Shift;
    ShiftsLast(1, 2 * n);
    ShiftsLast(1, 2 * n + 1);
  }

  /** The square of a register. */
  function Squared(r: bv16): bv16 { AtSquare(Coeffs(r)) }

  /** Squaring turns a multiplication by x into one by x^2: the generator at x^2 is a multiple of the generator. */
  lemma SquaredShift(r: bv16)
    ensures Squared(Shift(r)) == Shift(Shift(Squared(r)))
  {
    hide Shift, Xor, XPower, Coeffs, BitStep, AtSquare;
    var c := Coeffs(r);
    var low, top := c[..15], c[15];
    ShiftIsBitStep(r);
    CoeffsOfBitStep(r, false);
    AtSquareAdd([false] + low, Scale(top, GENERATOR[..16]));
    AtSquareShift(low);
    AtSquareSplit(c);
    var t := if top then XPower(30) else 0;
    ShiftXor(t, AtSquare(low));
    ShiftXor(Shift(t), Shift(AtSquare(low)));
    TwoPlaces(15);
    ShiftZero(0);
    GeneratorAtSquare();
    AtSquareZeros(16);
    XorLaws(Shift(Shift(t)), Shift(Shift(AtSquare(low))), 0);
  }

  lemma AtSquareSplit(c: Poly)
    requires |c| == 16
    ensures AtSquare(c) == Xor(if c[15] then XPower(30) else 0, AtSquare(c[..15]))
  {
    hide Xor, XPower;
  }

  lemma {:induction false} AtSquareZeros(n: nat)
    ensures AtSquare(Zeros(n)) == 0
  {
    hide Xor, XPower;
    if n > 0 {
      assert Zeros(n)[..n - 1] == Zeros(n - 1);
      AtSquareZeros(n - 1);
      XorLaws(0, 0, 0);
    }
  }

  /** The even powers up to x^32. */
  lemma EvenPowers()
    ensures XPower(0) == 0x0001
    ensures XPower(2) == 0x0004
    ensures XPower(4) == 0x0010
    ensures XPower(6) == 0x0040
    ensures XPower(8) == 0x0100
    ensures XPower(10) == 0x0400
    ensures XPower(12) == 0x1000
    ensures XPower(14) == 0x4000
    ensures XPower(16) == 0x1021
    ensures XPower(18) == 0x4084
    ensures XPower(20) == 0x1231
    ensures XPower(22) == 0x48c4
    ensures XPower(24) == 0x3331
    ensures XPower(26) == 0xccc4
    ensures XPower(28) == 0x0373
    ensures XPower(30) == 0x0dcc
    ensures XPower(32) == 0x3730
  {
    hide XPower;
    PowerZero();
    NextEven(0, 0x0001, 0x0004);
    NextEven(1, 0x0004, 0x0010);
    NextEven(2, 0x0010, 0x0040);
    NextEven(3, 0x0040, 0x0100);
    NextEven(4, 0x0100, 0x0400);
    NextEven(5, 0x0400, 0x1000);
    NextEven(6, 0x1000, 0x4000);
    NextEven(7, 0x4000, 0x1021);
    NextEven(8, 0x1021, 0x4084);
    NextEven(9, 0x4084, 0x1231);
    NextEven(10, 0x1231, 0x48c4);
    NextEven(11, 0x48c4, 0x3331);
    NextEven(12, 0x3331, 0xccc4);
    NextEven(13, 0xccc4, 0x0373);
    NextEven(14, 0x0373, 0x0dcc);
    NextEven(15, 0x0dcc, 0x3730);
  }

  lemma PowerZero()
    ensures XPower(0) == 1
  {
  }

  lemma NextEven(n: nat, v: bv16, w: bv16)
    requires XPower(2 * n) == v && w == Shift(Shift(v))
    ensures XPower(2 * n + 2) == w
  {
    hide Shift, XPower;
    TwoPlaces(n);
  }

  lemma {:induction false} AtSquareOne(p: Poly, i: nat)
    requires i < |p| && p[i] && forall k :: 0 <= k < |p| && k != i ==> !p[k]
    ensures AtSquare(p) == XPower(2 * i)
  {
    hide Xor, XPower;
    var n := |p| - 1;
    if i == n {
      assert p[..n] == Zeros(n);
      AtSquareZeros(n);
    } else {
      AtSquareOne(p[..n], i);
    }
    XorLaws(XPower(2 * i), 0, 0);
  }

  function Monomial(i: nat): Poly { seq(16, k => k == i) }

  lemma GeneratorAtSquare()
    ensures AtSquare(GENERATOR[..16]) == XPower(32)
  {
    hide AtSquare, XPower;
    var sum := Add(Add(Monomial(0), Monomial(5)), Monomial(12));
    assert sum == GENERATOR[..16];
    AtSquareAdd(Add(Monomial(0), Monomial(5)), Monomial(12));
    AtSquareAdd(Monomial(0), Monomial(5));
    AtSquareOne(Monomial(0), 0);
    AtSquareOne(Monomial(5), 5);
    AtSquareOne(Monomial(12), 12);
    EvenPowers();
  }

  lemma SquaredOne()
    ensures Squared(1) == 1
  {
    hide AtSquare, Xor, XPower, Coeffs;
    CoeffsAt(1);
    AtSquareOne(Coeffs(1), 0);
    PowerZero();
  }

  lemma {:induction false} PowerSquared(n: nat)
    ensures XPower(2 * n) == Squared(XPower(n))
  {
    hide Squared, Shift;
    if n == 0 {
      SquaredOne();
    } else {
      PowerSquared(n - 1);
      SquaredShift(XPower(n - 1));
      ShiftsLast(1, n - 1);
      ShiftsLast(1, 2 * n - 2);
      ShiftsLast(1, 2 * n - 1);
    }
  }

  // ----- squaring computed

  function Term(r: bv16, bit: bv16, value: bv16): bv16 { if Has(r, bit) then value else 0 }

  /** Squared, with the even powers of x filled in. */
  function Square(r: bv16): bv16 {
    Xor(Term(r, 0x8000, 0x0dcc), Xor(Term(r, 0x4000, 0x0373),
    Xor(Term(r, 0x2000, 0xccc4), Xor(Term(r, 0x1000, 0x3331),
    Xor(Term(r, 0x0800, 0x48c4), Xor(Term(r, 0x0400, 0x1231),
    Xor(Term(r, 0x0200, 0x4084), Xor(Term(r, 0x0100, 0x1021),
    Xor(Term(r, 0x0080, 0x4000), Xor(Term(r, 0x0040, 0x1000),
    Xor(Term(r, 0x0020, 0x0400), Xor(Term(r, 0x0010, 0x0100),
    Xor(Term(r, 0x0008, 0x0040), Xor(Term(r, 0x0004, 0x0010),
    Xor(Term(r, 0x0002, 0x0004), Xor(Term(r, 0x0001, 0x0001),
    0))))))))))))))))
  }

  lemma SquareIs(r: bv16)
    ensures Squared(r) == Square(r)
  {
    hide Xor, XPower, Coeffs, AtSquare, Has;
    var c := Coeffs(r);
    CoeffsAt(r);
    EvenPowers();
    SquareFrom(c, 4);
    SquareFrom(c, 8);
    SquareFrom(c, 12);
    SquareFrom(c, 16);
  }

  /** Four coefficients at once. */
  lemma SquareFrom(c: Poly, n: nat)
    requires |c| == 16 && 4 <= n <= 16
    ensures AtSquare(c[..n])
         == Xor(if c[n - 1] then XPower(2 * (n - 1)) else 0, Xor(if c[n - 2] then XPower(2 * (n - 2)) else 0,
            Xor(if c[n - 3] then XPower(2 * (n - 3)) else 0, Xor(if c[n - 4] then XPower(2 * (n - 4)) else 0,
            AtSquare(c[..n - 4])))))
    ensures AtSquare(c[..0]) == 0 && c[..16] == c
  {
    hide Xor, XPower;
    hide AtSquare;
    SquareNext(c, n - 1);
    SquareNext(c, n - 2);
    SquareNext(c, n - 3);
    SquareNext(c, n - 4);
    AtSquareZeros(0);
    assert c[..0] == Zeros(0);
  }

  lemma SquareNext(c: Poly, n: nat)
    requires n < |c|
    ensures AtSquare(c[..n + 1]) == Xor(if c[n] then XPower(2 * n) else 0, AtSquare(c[..n]))
  {
    hide Xor, XPower;
    assert c[..n + 1][..n] == c[..n];
  }

  function Has(r: bv16, bit: bv16): bool { r & bit != 0 }

  function Unit(i: nat): bv16 { if i == 0 then 1 else Twice(Unit(i - 1)) }

  lemma HasTwice(r: bv16, bit: bv16)
    requires !Top(bit)
    ensures Has(Twice(r), Twice(bit)) == Has(r, bit)
  {
  }

  lemma HasTop(r: bv16)
    ensures Has(r, 0x8000) == Top(r)
  {
  }

  /** The coefficients of a register are its bits. */
  lemma {:induction false} CoeffIsBit(r: bv16, i: nat)
    requires i < 16
    ensures Coeffs(r)[i] == Has(r, Unit(i))
    decreases 16 - i
  {
    hide Has, Top, Twice, Coeffs;
    CoeffsOfTwice(r);
    Units();
    if i == 15 {
      HasTop(r);
    } else {
      CoeffIsBit(Twice(r), i + 1);
      UnitBelow(i);
      HasTwice(r, Unit(i));
    }
  }

  lemma Units()
    ensures Unit(0) == 0x0001
    ensures Unit(1) == 0x0002
    ensures Unit(2) == 0x0004
    ensures Unit(3) == 0x0008
    ensures Unit(4) == 0x0010
    ensures Unit(5) == 0x0020
    ensures Unit(6) == 0x0040
    ensures Unit(7) == 0x0080
    ensures Unit(8) == 0x0100
    ensures Unit(9) == 0x0200
    ensures Unit(10) == 0x0400
    ensures Unit(11) == 0x0800
    ensures Unit(12) == 0x1000
    ensures Unit(13) == 0x2000
    ensures Unit(14) == 0x4000
    ensures Unit(15) == 0x8000
  {
    hide Unit;
    UnitZero();
    UnitNext(0, 0x0001, 0x0002);
    UnitNext(1, 0x0002, 0x0004);
    UnitNext(2, 0x0004, 0x0008);
    UnitNext(3, 0x0008, 0x0010);
    UnitNext(4, 0x0010, 0x0020);
    UnitNext(5, 0x0020, 0x0040);
    UnitNext(6, 0x0040, 0x0080);
    UnitNext(7, 0x0080, 0x0100);
    UnitNext(8, 0x0100, 0x0200);
    UnitNext(9, 0x0200, 0x0400);
    UnitNext(10, 0x0400, 0x0800);
    UnitNext(11, 0x0800, 0x1000);
    UnitNext(12, 0x1000, 0x2000);
    UnitNext(13, 0x2000, 0x4000);
    UnitNext(14, 0x4000, 0x8000);
  }

  lemma UnitZero()
    ensures Unit(0) == 1
  {
  }

  lemma UnitNext(i: nat, v: bv16, w: bv16)
    requires Unit(i) == v && w == Twice(v)
    ensures Unit(i + 1) == w
  {
    hide Twice;
  }

  lemma UnitBelow(i: nat)
    requires i < 15
    ensures !Top(Unit(i))
  {
    hide Unit;
    Units();
    assert i in {0, 1, 2, 3, 4, 5, 6, 7, 8, 9, 10, 11, 12, 13, 14};
  }

  lemma CoeffsAt(r: bv16)
    ensures Coeffs(r)[0] == Has(r, 0x0001)
    ensures Coeffs(r)[1] == Has(r, 0x0002)
    ensures Coeffs(r)[2] == Has(r, 0x0004)
    ensures Coeffs(r)[3] == Has(r, 0x0008)
    ensures Coeffs(r)[4] == Has(r, 0x0010)
    ensures Coeffs(r)[5] == Has(r, 0x0020)
    ensures Coeffs(r)[6] == Has(r, 0x0040)
    ensures Coeffs(r)[7] == Has(r, 0x0080)
    ensures Coeffs(r)[8] == Has(r, 0x0100)
    ensures Coeffs(r)[9] == Has(r, 0x0200)
    ensures Coeffs(r)[10] == Has(r, 0x0400)
    ensures Coeffs(r)[11] == Has(r, 0x0800)
    ensures Coeffs(r)[12] == Has(r, 0x1000)
    ensures Coeffs(r)[13] == Has(r, 0x2000)
    ensures Coeffs(r)[14] == Has(r, 0x4000)
    ensures Coeffs(r)[15] == Has(r, 0x8000)
  {
    hide Has, Unit, Coeffs;
    Units();
    CoeffIsBit(r, 0);
    CoeffIsBit(r, 1);
    CoeffIsBit(r, 2);
    CoeffIsBit(r, 3);
    CoeffIsBit(r, 4);
    CoeffIsBit(r, 5);
    CoeffIsBit(r, 6);
    CoeffIsBit(r, 7);
    CoeffIsBit(r, 8);
    CoeffIsBit(r, 9);
    CoeffIsBit(r, 10);
    CoeffIsBit(r, 11);
    CoeffIsBit(r, 12);
    CoeffIsBit(r, 13);
    CoeffIsBit(r, 14);
    CoeffIsBit(r, 15);
  }

  // ----- the period of the generator

  /** One step of computing a power by its binary digits. */
  lemma Climb(n: nat, v: bv16, odd: bool, w: bv16)
    requires XPower(n) == v && w == if odd then Shift(Square(v)) else Square(v)
    ensures XPower(if odd then 2 * n + 1 else 2 * n) == w
  {
    hide Square, Shift, Squared;
    PowerSquared(n);
    SquareIs(v);
    ShiftsLast(1, 2 * n);
  }

  lemma FirstPower()
    ensures XPower(1) == 0x0002
  {
    hide Shift;
    ShiftOne();
    assert Shifts(1, 1) == Shifts(Shift(1), 0);
  }

  lemma ShiftOne()
    ensures Shift(1) == 2
  {
  }

  lemma Power217()
    ensures XPower(217) == 0x48e3
  {
    hide XPower;
    FirstPower();
    Climb(1, 0x0002, true, 0x0008);
    Climb(3, 0x0008, false, 0x0040);
    Climb(6, 0x0040, true, 0x2000);
    Climb(13, 0x2000, true, 0x89a9);
    Climb(27, 0x89a9, false, 0x1168);
    Climb(54, 0x1168, false, 0x3750);
    Climb(108, 0x3750, true, 0x48e3);
  }

  lemma Power1057()
    ensures XPower(1057) == 0xf2af
  {
    hide XPower;
    FirstPower();
    Climb(1, 0x0002, false, 0x0004);
    Climb(2, 0x0004, false, 0x0010);
    Climb(4, 0x0010, false, 0x0100);
    Climb(8, 0x0100, false, 0x1021);
    Climb(16, 0x1021, true, 0x6e60);
    Climb(33, 0x6e60, false, 0xc1c6);
    Climb(66, 0xc1c6, false, 0x4e8a);
    Climb(132, 0x4e8a, false, 0x5946);
    Climb(264, 0x5946, false, 0x78b3);
    Climb(528, 0x78b3, true, 0xf2af);
  }

  lemma Power4681()
    ensures XPower(4681) == 0x2c42
  {
    hide XPower;
    FirstPower();
    Climb(1, 0x0002, false, 0x0004);
    Climb(2, 0x0004, false, 0x0010);
    Climb(4, 0x0010, true, 0x0200);
    Climb(9, 0x0200, false, 0x4084);
    Climb(18, 0x4084, false, 0x4363);
    Climb(36, 0x4363, true, 0x8fa6);
    Climb(73, 0x8fa6, false, 0x4388);
    Climb(146, 0x4388, false, 0x1396);
    Climb(292, 0x1396, true, 0x4500);
    Climb(585, 0x4500, false, 0x0163);
    Climb(1170, 0x0163, false, 0x0424);
    Climb(2340, 0x0424, true, 0x2c42);
  }

  lemma Power32767()
    ensures XPower(32767) == 0x0001
  {
    hide XPower;
    FirstPower();
    Climb(1, 0x0002, true, 0x0008);
    Climb(3, 0x0008, true, 0x0080);
    Climb(7, 0x0080, true, 0x8000);
    Climb(15, 0x8000, true, 0x1b98);
    Climb(31, 0x1b98, true, 0xd420);
    Climb(63, 0xd420, true, 0x577e);
    Climb(127, 0x577e, true, 0xcf04);
    Climb(255, 0xcf04, true, 0x09fe);
    Climb(511, 0x09fe, true, 0x1b62);
    Climb(1023, 0x1b62, true, 0x7ea8);
    Climb(2047, 0x7ea8, true, 0x554f);
    Climb(4095, 0x554f, true, 0x440e);
    Climb(8191, 0x440e, true, 0x222c);
    Climb(16383, 0x222c, true, 0x0001);
  }

  const PERIOD := 32767

  lemma PowerAdd(m: nat, n: nat)
    requires XPower(m) == 1
    ensures XPower(m + n) == XPower(n)
  {
    ShiftsAdd(1, m, n);
    hide Shift;
  }

  lemma {:induction false} PowerMultiple(m: nat, k: nat)
    requires XPower(m) == 1
    ensures XPower(k * m) == 1
  {
    hide XPower;
    if k == 0 {
      PowerZero();
      Arithmetic.MulDistributes(0, 0, m);
    } else {
      PowerMultiple(m, k - 1);
      PowerAdd(m, (k - 1) * m);
      Arithmetic.MulDistributes(k - 1, 1, m);
    }
  }

  lemma PowerRemainder(m: nat, n: nat)
    requires m > 0 && XPower(m) == 1
    ensures XPower(n % m) == XPower(n)
  {
    hide XPower;
    PowerMultiple(m, n / m);
    PowerAdd(n / m * m, n % m);
  }

  /** A common divisor with the same property, by Euclid's algorithm. */
  lemma {:induction false} CommonDivisor(m: nat, n: nat) returns (g: nat)
    requires m > 0 && XPower(m) == 1 && XPower(n) == 1
    ensures g > 0 && m % g == 0 && n % g == 0 && XPower(g) == 1
    decreases m
  {
    hide XPower;
    var r := n % m;
    PowerRemainder(m, n);
    if r == 0 {
      g := m;
      DivUnique(m, m, 1, 0);
    } else {
      g := CommonDivisor(r, m);
      Combined(n, m, r, g);
    }
  }

  lemma Combined(n: nat, m: nat, r: nat, g: nat)
    requires m > 0 && r == n % m && g > 0 && m % g == 0 && r % g == 0
    ensures n % g == 0
  {
    var q, a, b := n / m, m / g, r / g;
    Associate(q, a, g);
    Arithmetic.MulDistributes(q * a, b, g);
    DivUnique(n, g, q * a + b, 0);
  }

  lemma Associate(a: int, b: int, c: int)
    ensures a * (b * c) == a * b * c
  {
  }

  /** 32767 = 7 * 31 * 151 has no other divisor up to 181. */
  lemma SmallDivisor(k: nat)
    requires 0 < k <= 181 && PERIOD % k == 0
    ensures k in {1, 7, 31, 151}
  {
    var q := PERIOD / k;
    assert q * k == PERIOD;
    if k <= 60 {
      UpTo60(q, k);
    } else if k <= 120 {
      UpTo120(q, k);
    } else {
      UpTo181(q, k);
    }
  }

  lemma UpTo60(q: nat, k: nat)
    requires 0 < k <= 60 && q * k == PERIOD
    ensures k in {1, 7, 31}
  {
  }

  lemma UpTo120(q: nat, k: nat)
    requires 60 < k <= 120
    ensures q * k != PERIOD
  {
  }

  lemma UpTo181(q: nat, k: nat)
    requires 120 < k <= 181 && q * k == PERIOD
    ensures k == 151
  {
  }

  /** A proper divisor of the period divides it with a prime factor left out. */
  lemma ProperDivisor(g: nat)
    requires 0 < g < PERIOD && PERIOD % g == 0
    ensures 4681 % g == 0 || 1057 % g == 0 || 217 % g == 0
  {
    if g <= 181 {
      SmallDivisor(g);
    } else {
      var h := PERIOD / g;
      assert PERIOD == h * g;
      if h > 181 {
        MulMonotone(182, h, g);
        assert false;
      }
      DivUnique(PERIOD, h, g, 0);
      SmallDivisor(h);
    }
  }

  lemma DividesOn(g: nat, n: nat)
    requires g > 0 && n % g == 0 && XPower(g) == 1
    ensures XPower(n) == 1
  {
    hide XPower;
    PowerMultiple(g, n / g);
  }

  /** x^n is 1 modulo the generator exactly for the multiples of 32767. */
  lemma PeriodExactly(n: nat)
    ensures XPower(n) == 1 <==> n % PERIOD == 0
  {
    hide XPower;
    Power32767();
    PowerRemainder(PERIOD, n);
    var r := n % PERIOD;
    if r == 0 {
      PowerZero();
    } else if XPower(r) == 1 {
      var g := CommonDivisor(r, PERIOD);
      DivisorBelow(g, r);
      ProperDivisor(g);
      Power4681();
      Power1057();
      Power217();
      if 4681 % g == 0 {
        DividesOn(g, 4681);
      } else if 1057 % g == 0 {
        DividesOn(g, 1057);
      } else {
        DividesOn(g, 217);
      }
      assert false;
    }
  }

  lemma DivisorBelow(g: nat, r: nat)
    requires 0 < r && g > 0 && r % g == 0
    ensures g <= r
  {
    if g > r {
      DivUnique(r, g, 0, r);
    }
  }
}
