/**
 * The order of the check register: how many shifts bring it back, and so how far apart two
 * flipped bits can be without escaping. Shifting is multiplication by x modulo the polynomial.
 */
module CrcOrder {
  import opened Bytes
  import opened ShiftRegister
  import opened Crc16
  import opened Modular

  const ORDER: nat := 32767

  /** The power x^k, as the register holds it. */
  function X(k: nat): bv16 {
    REG.Steps(1, k)
  }

  // ----- shifting is linear and invertible -----

  lemma {:induction false} StepsAdd(v: bv16, a: nat, b: nat)
    ensures REG.Steps(v, a + b) == REG.Steps(REG.Steps(v, a), b)
    decreases a
  {
    hide Step;
    if a > 0 {
      StepsAdd(Step(v), a - 1, b);
    }
  }

  lemma {:induction false} StepsLinear(u: bv16, v: bv16, k: nat)
    ensures REG.Steps(Xor(u, v), k) == Xor(REG.Steps(u, k), REG.Steps(v, k))
    decreases k
  {
    hide Step, Xor;
    if k > 0 {
      StepLinear(u, v);
      StepsLinear(Step(u), Step(v), k - 1);
    }
  }

  lemma {:induction false} StepsClear(v: bv16, k: nat)
    ensures REG.Steps(v, k) == 0 <==> v == 0
    decreases k
  {
    hide Step;
    if k > 0 {
      StepClear(v);
      StepsClear(Step(v), k - 1);
    }
  }

  lemma StepsInjective(u: bv16, v: bv16, k: nat)
    ensures REG.Steps(u, k) == REG.Steps(v, k) <==> u == v
  {
    hide Step, Xor, Register.Steps;
    StepsLinear(u, v, k);
    StepsClear(Xor(u, v), k);
    XorEqual(u, v);
    XorEqual(REG.Steps(u, k), REG.Steps(v, k));
  }

  // ----- multiplication by a power, and squaring -----

  function Pick(v: bv16, b: bv16): bv16 {
    if v & 1 != 0 then b else 0
  }

  /** The sum of the shifts of `b` that the low four bits of `v` select. */
  function Mul4(v: bv16, b: bv16): bv16 {
    Xor(Xor(Pick(v, b), Pick(v >> 1, Step(b))), Xor(Pick(v >> 2, Step2(b)), Pick(v >> 3, Step(Step2(b)))))
  }

  function Step2(b: bv16): bv16 {
    Step(Step(b))
  }

  function Step4(b: bv16): bv16 {
    Step2(Step2(b))
  }

  /** And that all sixteen select. */
  function Mul(v: bv16, b: bv16): bv16 {
    Xor(Xor(Mul4(v, b), Mul4(v >> 4, Step4(b))),
        Xor(Mul4(v >> 8, Step4(Step4(b))), Mul4(v >> 12, Step4(Step4(Step4(b))))))
  }

  lemma OneStep(v: bv16)
    ensures REG.Steps(v, 1) == Step(v)
  {
    hide Step;
    NoMoreSteps(Step(v));
  }

  /** A shift commutes with any number of shifts. */
  lemma StepOfSteps(w: bv16, k: nat)
    ensures Step(REG.Steps(w, k)) == REG.Steps(Step(w), k)
  {
    hide Step, Register.Steps;
    OneStep(REG.Steps(w, k));
    OneStep(w);
    StepsAdd(w, k, 1);
    StepsAdd(w, 1, k);
    assert k + 1 == 1 + k;
  }

  lemma Step4OfSteps(w: bv16, k: nat)
    ensures Step2(REG.Steps(w, k)) == REG.Steps(Step2(w), k)
    ensures Step4(REG.Steps(w, k)) == REG.Steps(Step4(w), k)
  {
    hide Step, Register.Steps;
    StepOfSteps(w, k);
    StepOfSteps(Step(w), k);
    StepOfSteps(Step2(w), k);
    StepOfSteps(Step(Step2(w)), k);
  }

  lemma PickShifts(v: bv16, w: bv16, k: nat)
    ensures Pick(v, REG.Steps(w, k)) == REG.Steps(Pick(v, w), k)
  {
    hide Register.Steps;
    StepsClear(0, k);
  }

  lemma Mul4Shifts(v: bv16, w: bv16, k: nat)
    ensures Mul4(v, REG.Steps(w, k)) == REG.Steps(Mul4(v, w), k)
  {
    hide Step, Step2, Xor, Pick, Register.Steps;
    StepOfSteps(w, k);
    Step4OfSteps(w, k);
    StepOfSteps(Step2(w), k);
    PickShifts(v, w, k);
    PickShifts(v >> 1, Step(w), k);
    PickShifts(v >> 2, Step2(w), k);
    PickShifts(v >> 3, Step(Step2(w)), k);
    StepsLinear(Pick(v, w), Pick(v >> 1, Step(w)), k);
    StepsLinear(Pick(v >> 2, Step2(w)), Pick(v >> 3, Step(Step2(w))), k);
    StepsLinear(Xor(Pick(v, w), Pick(v >> 1, Step(w))), Xor(Pick(v >> 2, Step2(w)), Pick(v >> 3, Step(Step2(w)))), k);
  }

  lemma MulShifts(v: bv16, w: bv16, k: nat)
    ensures Mul(v, REG.Steps(w, k)) == REG.Steps(Mul(v, w), k)
  {
    hide Step, Step4, Xor, Mul4, Register.Steps;
    var w4 := Step4(w);
    var w8 := Step4(w4);
    var w12 := Step4(w8);
    Step4OfSteps(w, k);
    Step4OfSteps(w4, k);
    Step4OfSteps(w8, k);
    Mul4Shifts(v, w, k);
    Mul4Shifts(v >> 4, w4, k);
    Mul4Shifts(v >> 8, w8, k);
    Mul4Shifts(v >> 12, w12, k);
    StepsLinear(Mul4(v, w), Mul4(v >> 4, w4), k);
    StepsLinear(Mul4(v >> 8, w8), Mul4(v >> 12, w12), k);
    StepsLinear(Xor(Mul4(v, w), Mul4(v >> 4, w4)), Xor(Mul4(v >> 8, w8), Mul4(v >> 12, w12)), k);
  }

  /** Selecting powers of x spells the word itself. */
  lemma MulOne(v: bv16)
    ensures Mul(v, 1) == v
  {
    PowersOfTwo();
    hide Step, Step2, Step4, Xor, Pick;
    FirstNibbles(v);
    LastNibbles(v);
    Nibbles(v);
  }

  lemma FirstNibbles(v: bv16)
    ensures Xor(Xor(Pick(v, 1), Pick(v >> 1, 2)), Xor(Pick(v >> 2, 4), Pick(v >> 3, 8))) == v & 0xF
    ensures Xor(Xor(Pick(v >> 4, 0x10), Pick(v >> 4 >> 1, 0x20)), Xor(Pick(v >> 4 >> 2, 0x40), Pick(v >> 4 >> 3, 0x80)))
            == v & 0xF0
  {
  }

  lemma LastNibbles(v: bv16)
    ensures Xor(Xor(Pick(v >> 8, 0x100), Pick(v >> 8 >> 1, 0x200)),
                Xor(Pick(v >> 8 >> 2, 0x400), Pick(v >> 8 >> 3, 0x800)))
            == v & 0xF00
    ensures Xor(Xor(Pick(v >> 12, 0x1000), Pick(v >> 12 >> 1, 0x2000)),
                Xor(Pick(v >> 12 >> 2, 0x4000), Pick(v >> 12 >> 3, 0x8000)))
            == v & 0xF000
  {
  }

  lemma PowersOfTwo()
    ensures Step(1) == 2 && Step2(1) == 4 && Step(4) == 8 && Step4(1) == 0x10
    ensures Step(0x10) == 0x20 && Step2(0x10) == 0x40 && Step(0x40) == 0x80 && Step4(0x10) == 0x100
    ensures Step(0x100) == 0x200 && Step2(0x100) == 0x400 && Step(0x400) == 0x800 && Step4(0x100) == 0x1000
    ensures Step(0x1000) == 0x2000 && Step2(0x1000) == 0x4000 && Step(0x4000) == 0x8000
  {
  }

  lemma Nibbles(v: bv16)
    ensures Xor(Xor(v & 0xF, v & 0xF0), Xor(v & 0xF00, v & 0xF000)) == v
  {
  }

  /** So shifting is multiplication by a power. */
  lemma StepsIsMul(v: bv16, k: nat)
    ensures REG.Steps(v, k) == Mul(v, X(k))
  {
    hide Mul, Register.Steps;
    MulShifts(v, 1, k);
    MulOne(v);
  }

  lemma Doubles(k: nat, c: bv16)
    requires X(k) == c
    ensures X(2 * k) == Mul(c, c) && X(2 * k + 1) == Step(Mul(c, c))
  {
    hide Mul, Step, Register.Steps;
    StepsAdd(1, k, k);
    StepsIsMul(c, k);
    StepsAdd(1, 2 * k, 1);
    OneStep(X(2 * k));
  }

  // ----- the order of x -----

  lemma LowPowers()
    ensures X(8) == 0x0100 && X(9) == 0x0200 && X(13) == 0x2000 && X(15) == 0x8000
  {
    hide Step;
    StepsOfOnes();
    NextPower(0);
    NextPower(1);
    NextPower(2);
    NextPower(3);
    NextPower(4);
    NextPower(5);
    NextPower(6);
    NextPower(7);
    NextPower(8);
    NextPower(9);
    NextPower(10);
    NextPower(11);
    NextPower(12);
    NextPower(13);
    NextPower(14);
  }

  lemma NextPower(k: nat)
    ensures X(0) == 1 && X(k + 1) == Step(X(k))
  {
    hide Step;
    StepOfSteps(1, k);
    NoMoreSteps(1);
    assert X(k + 1) == REG.Steps(Step(1), k);
  }

  lemma StepsOfOnes()
    ensures Step(0x0001) == 0x0002 && Step(0x0002) == 0x0004 && Step(0x0004) == 0x0008 && Step(0x0008) == 0x0010
    ensures Step(0x0010) == 0x0020 && Step(0x0020) == 0x0040 && Step(0x0040) == 0x0080 && Step(0x0080) == 0x0100
    ensures Step(0x0100) == 0x0200 && Step(0x0200) == 0x0400 && Step(0x0400) == 0x0800 && Step(0x0800) == 0x1000
    ensures Step(0x1000) == 0x2000 && Step(0x2000) == 0x4000 && Step(0x4000) == 0x8000 && Step(0x8000) == 0x1021
  {
  }

  lemma StepsOfSquares()
    ensures Step(0x04FF) == 0x09FE
    ensures Step(0x0DB1) == 0x1B62
    ensures Step(0x0DCC) == 0x1B98
    ensures Step(0x1116) == 0x222C
    ensures Step(0x1621) == 0x2C42
    ensures Step(0x2207) == 0x440E
    ensures Step(0x2280) == 0x4500
    ensures Step(0x2BBF) == 0x577E
    ensures Step(0x3730) == 0x6E60
    ensures Step(0x3F54) == 0x7EA8
    ensures Step(0x47D3) == 0x8FA6
    ensures Step(0x6782) == 0xCF04
    ensures Step(0x6A10) == 0xD420
    ensures Step(0x8810) == 0x0001
    ensures Step(0xA2B7) == 0x554F
    ensures Step(0xAC61) == 0x48E3
    ensures Step(0xCCC4) == 0x89A9
    ensures Step(0xF147) == 0xF2AF
  {
  }

  lemma Squares1()
    ensures Mul(0x8000, 0x8000) == 0x0DCC
    ensures Mul(0x1B98, 0x1B98) == 0x6A10
    ensures Mul(0xD420, 0xD420) == 0x2BBF
    ensures Mul(0x577E, 0x577E) == 0x6782
  {
  }

  lemma Squares2()
    ensures Mul(0xCF04, 0xCF04) == 0x04FF
    ensures Mul(0x09FE, 0x09FE) == 0x0DB1
    ensures Mul(0x1B62, 0x1B62) == 0x3F54
    ensures Mul(0x7EA8, 0x7EA8) == 0xA2B7
  {
  }

  lemma Squares3()
    ensures Mul(0x554F, 0x554F) == 0x2207
    ensures Mul(0x440E, 0x440E) == 0x1116
    ensures Mul(0x222C, 0x222C) == 0x8810
    ensures Mul(0x0200, 0x0200) == 0x4084
  {
  }

  lemma Squares4()
    ensures Mul(0x4084, 0x4084) == 0x4363
    ensures Mul(0x4363, 0x4363) == 0x47D3
    ensures Mul(0x8FA6, 0x8FA6) == 0x4388
    ensures Mul(0x4388, 0x4388) == 0x1396
  {
  }

  lemma Squares5()
    ensures Mul(0x1396, 0x1396) == 0x2280
    ensures Mul(0x4500, 0x4500) == 0x0163
    ensures Mul(0x0163, 0x0163) == 0x0424
    ensures Mul(0x0424, 0x0424) == 0x1621
  {
  }

  lemma Squares6()
    ensures Mul(0x0100, 0x0100) == 0x1021
    ensures Mul(0x1021, 0x1021) == 0x3730
    ensures Mul(0x6E60, 0x6E60) == 0xC1C6
    ensures Mul(0xC1C6, 0xC1C6) == 0x4E8A
  {
  }

  lemma Squares7()
    ensures Mul(0x4E8A, 0x4E8A) == 0x5946
    ensures Mul(0x5946, 0x5946) == 0x78B3
    ensures Mul(0x78B3, 0x78B3) == 0xF147
    ensures Mul(0x2000, 0x2000) == 0xCCC4
  {
  }

  lemma Squares8()
    ensures Mul(0x89A9, 0x89A9) == 0x1168
    ensures Mul(0x1168, 0x1168) == 0x3750
    ensures Mul(0x3750, 0x3750) == 0xAC61
  {
  }

  lemma Power32767()
    ensures X(32767) == 0x0001
  {
    LowPowers();
    hide Mul, Register.Steps, Step, X;
    Squares1();
    Squares2();
    Squares3();
    StepsOfSquares();
    Doubles(15, 0x8000);
    Doubles(31, 0x1B98);
    Doubles(63, 0xD420);
    Doubles(127, 0x577E);
    Doubles(255, 0xCF04);
    Doubles(511, 0x09FE);
    Doubles(1023, 0x1B62);
    Doubles(2047, 0x7EA8);
    Doubles(4095, 0x554F);
    Doubles(8191, 0x440E);
    Doubles(16383, 0x222C);
  }

  lemma Power4681()
    ensures X(4681) == 0x2C42
  {
    LowPowers();
    hide Mul, Register.Steps, Step, X;
    Squares3();
    Squares4();
    Squares5();
    StepsOfSquares();
    Doubles(9, 0x0200);
    Doubles(18, 0x4084);
    Doubles(36, 0x4363);
    Doubles(73, 0x8FA6);
    Doubles(146, 0x4388);
    Doubles(292, 0x1396);
    Doubles(585, 0x4500);
    Doubles(1170, 0x0163);
    Doubles(2340, 0x0424);
  }

  lemma Power1057()
    ensures X(1057) == 0xF2AF
  {
    LowPowers();
    hide Mul, Register.Steps, Step, X;
    Squares6();
    Squares7();
    StepsOfSquares();
    Doubles(8, 0x0100);
    Doubles(16, 0x1021);
    Doubles(33, 0x6E60);
    Doubles(66, 0xC1C6);
    Doubles(132, 0x4E8A);
    Doubles(264, 0x5946);
    Doubles(528, 0x78B3);
  }

  lemma Power217()
    ensures X(217) == 0x48E3
  {
    LowPowers();
    hide Mul, Register.Steps, Step, X;
    Squares7();
    Squares8();
    StepsOfSquares();
    Doubles(13, 0x2000);
    Doubles(27, 0x89A9);
    Doubles(54, 0x1168);
    Doubles(108, 0x3750);
  }

  /** `d` shifts bring the word `v` back. */
  predicate Returns(v: bv16, d: nat) {
    REG.Steps(v, d) == v
  }

  lemma ReturnsEverything(d: nat, v: bv16)
    requires Returns(1, d)
    ensures Returns(v, d)
  {
    hide Mul, Register.Steps;
    StepsIsMul(v, d);
    MulOne(v);
  }

  lemma ReturnsRest(v: bv16, a: nat, b: nat)
    requires Returns(v, a)
    ensures Returns(v, a + b) <==> Returns(v, b)
  {
    hide Register.Steps;
    StepsAdd(v, a, b);
  }

  lemma {:induction false} ReturnsMultiple(v: bv16, a: nat, q: nat)
    requires Returns(v, a)
    ensures Returns(v, q * a)
    decreases q
  {
    hide Step;
    if q == 0 {
      NoMoreSteps(v);
    } else {
      ReturnsMultiple(v, a, q - 1);
      assert q * a == a + (q - 1) * a;
      ReturnsRest(v, a, (q - 1) * a);
    }
  }

  /** The exponents that return are closed under common divisors. */
  lemma {:induction false} ReturnsCommon(v: bv16, a: nat, b: nat) returns (g: nat)
    requires a > 0 && Returns(v, a) && Returns(v, b)
    ensures 0 < g <= a && a % g == 0 && b % g == 0 && Returns(v, g)
    decreases b
  {
    hide Returns;
    if b == 0 {
      g := a;
    } else {
      var q, r := a / b, a % b;
      ReturnsMultiple(v, b, q);
      ReturnsRest(v, q * b, r);
      assert a == q * b + r;
      g := ReturnsCommon(v, b, r);
      Divides(g, b, q, r, a);
    }
  }

  lemma Divides(g: nat, b: nat, q: nat, r: nat, a: nat)
    requires 0 < g <= b && b % g == 0 && r % g == 0 && a == q * b + r && a > 0
    ensures a % g == 0 && g <= a
  {
    var x, y := b / g, r / g;
    assert b == x * g && r == y * g;
    assert a == (q * x + y) * g by {
      assert q * (x * g) == (q * x) * g;
    }
    Remainder(a, q * x + y, 0, g);
    Multiples(q * x + y, g);
    NotZero(q * x + y, g);
  }

  lemma NotZero(k: int, g: nat)
    ensures k <= 0 ==> k * g <= 0
  {
  }

  ghost predicate Prime(p: nat) {
    p > 1 && forall k :: 1 < k < p ==> p % k != 0
  }

  lemma NoSmallFactor(k: nat)
    requires 1 < k <= 12
    ensures 151 % k != 0 && (k < 7 ==> 7 % k != 0) && 31 % k != 0
  {
    if k <= 4 {
      assert k == 2 || k == 3 || k == 4;
    } else if k <= 8 {
      assert k == 5 || k == 6 || k == 7 || k == 8;
    } else {
      assert k == 9 || k == 10 || k == 11 || k == 12;
    }
  }

  /** A factor above 12 of a number below 169 has a cofactor up to 12. */
  lemma Cofactor(p: nat, k: nat)
    requires 12 < k < p < 169 && p % k == 0
    ensures 1 < p / k <= 12 && p % (p / k) == 0
  {
    var q := p / k;
    assert p == q * k;
    Multiples(q, k);
    assert q > 1 by { NotZero(q, k); }
    Products(q, k);
    Remainder(p, k, 0, q);
  }

  lemma Products(a: nat, b: nat)
    ensures a >= 13 && b >= 13 ==> a * b >= 169
  {
  }

  lemma Primes()
    ensures Prime(7) && Prime(31) && Prime(151)
  {
    forall p, k | (p == 7 || p == 31 || p == 151) && 1 < k < p
      ensures p % k != 0
    {
      if k <= 12 {
        NoSmallFactor(k);
      } else if p % k == 0 {
        Cofactor(p, k);
        NoSmallFactor(p / k);
      }
    }
  }

  /** The greatest common divisor as a combination of the two. */
  lemma {:induction false} Combination(a: nat, b: nat) returns (g: nat, x: int, y: int)
    requires a > 0
    ensures 0 < g <= a && a % g == 0 && b % g == 0 && g == a * x + b * y
    decreases b
  {
    if b == 0 {
      g, x, y := a, 1, 0;
    } else {
      var q, r := a / b, a % b;
      var u, v;
      g, u, v := Combination(b, r);
      x, y := v, u - q * v;
      assert a == q * b + r;
      Divides(g, b, q, r, a);
      assert b * u + r * v == a * v + b * (u - q * v) by {
        assert r * v == (a - q * b) * v == a * v - q * b * v;
        assert b * (u - q * v) == b * u - b * (q * v);
        assert q * b * v == b * (q * v);
      }
    }
  }

  /** A prime that divides a product divides a factor. */
  lemma PrimeDivides(p: nat, a: nat, b: nat)
    requires Prime(p) && a * b % p == 0
    ensures a % p == 0 || b % p == 0
  {
    var g, x, y := Combination(p, a);
    if g == p {
    } else {
      assert g == 1;
      var q := a * b / p;
      assert a * b == q * p;
      assert b == p * (x * b) + (a * b) * y by {
        assert b == (p * x + a * y) * b == p * x * b + a * y * b;
        assert p * x * b == p * (x * b) && a * y * b == (a * b) * y;
      }
      assert (q * p) * y == (q * y) * p && p * (x * b) == (x * b) * p;
      assert b == (x * b + q * y) * p;
      Remainder(b, x * b + q * y, 0, p);
    }
  }

  /** A proper divisor of the order, 7 * 31 * 151, divides one of its three largest. */
  lemma ProperDivisor(g: nat) returns (top: nat)
    requires 0 < g < ORDER && ORDER % g == 0
    ensures (top == 4681 || top == 1057 || top == 217) && top % g == 0
  {
    Primes();
    hide Prime;
    var h := ORDER / g;
    assert g * h == ORDER;
    top := 217;
    if h % 7 == 0 {
      top := Without(g, h, 7);
    } else if h % 31 == 0 {
      top := Without(g, h, 31);
    } else if h % 151 == 0 {
      top := Without(g, h, 151);
    } else {
      var a := Part(g, h, 7, 4681);
      var b := Part(a, h, 31, 151);
      var c := Part(b, h, 151, 1);
      UnitProduct(c, h);
      assert false;
    }
  }

  lemma UnitProduct(c: nat, h: nat)
    requires c * h == 1
    ensures h == 1
  {
    NotZero(c, h);
    assert (h - 1) * c == c * h - c;
    Multiples(h - 1, c);
  }

  /** The prime `p` divides the first factor, as it does not divide the second. */
  lemma Part(g: nat, h: nat, p: nat, rest: nat) returns (a: nat)
    requires Prime(p) && g * h == p * rest && h % p != 0
    ensures a * h == rest
  {
    Remainder(g * h, rest, 0, p);
    PrimeDivides(p, g, h);
    a := g / p;
    assert g == a * p;
    assert (a * p) * h == p * (a * h);
    SameFactor(p, a * h, rest);
  }

  lemma SameFactor(p: nat, x: nat, y: nat)
    requires p > 0 && p * x == p * y
    ensures x == y
  {
    assert (x - y) * p == p * x - p * y;
    Multiples(x - y, p);
  }

  lemma Without(g: nat, h: nat, p: nat) returns (top: nat)
    requires g > 0 && (p == 7 || p == 31 || p == 151) && g * h == ORDER && h % p == 0
    ensures (top == 4681 || top == 1057 || top == 217) && top % g == 0
  {
    var e := h / p;
    top := if p == 7 then 4681 else if p == 31 then 1057 else 217;
    assert h == e * p;
    assert g * (e * p) == p * (e * g);
    SameFactor(p, e * g, top);
    Remainder(top, e, 0, g);
  }

  lemma NoEarlyReturn(v: bv16, g: nat)
    requires 0 < g < ORDER && ORDER % g == 0 && Restless(v)
    ensures !Returns(v, g)
  {
    hide Register.Steps, Returns;
    var top := ProperDivisor(g);
    assert top == top / g * g;
    if Returns(v, g) {
      ReturnsMultiple(v, g, top / g);
    }
  }

  /** None of the three largest proper divisors of the order brings the word back. */
  predicate Restless(v: bv16) {
    !Returns(v, 4681) && !Returns(v, 1057) && !Returns(v, 217)
  }

  lemma OneIsRestless()
    ensures Restless(1)
  {
    hide Register.Steps;
    Power4681();
    Power1057();
    Power217();
  }

  /** Shifting brings every word back exactly after the multiples of 32767 shifts. */
  lemma OrderExactly(d: nat)
    ensures (forall v :: REG.Steps(v, d) == v) <==> d % ORDER == 0
  {
    hide Step, Register.Steps;
    OneIsRestless();
    TurnExactly(1, d);
    if Returns(1, d) {
      forall v ensures REG.Steps(v, d) == v {
        ReturnsEverything(d, v);
      }
    } else {
      assert REG.Steps(1, d) != 1;
    }
  }

  /** A restless word by itself has that period. */
  lemma TurnExactly(v: bv16, d: nat)
    requires Restless(v)
    ensures Returns(v, d) <==> d % ORDER == 0
  {
    hide Returns, Restless, Register.Steps;
    WholeTurn(v);
    var q, r := d / ORDER, d % ORDER;
    ReturnsMultiple(v, ORDER, q);
    ReturnsRest(v, q * ORDER, r);
    assert d == q * ORDER + r;
    if r == 0 {
      NoTurn(v);
    } else if Returns(v, r) {
      var g := ReturnsCommon(v, r, ORDER);
      NoEarlyReturn(v, g);
    }
  }

  lemma WholeTurn(v: bv16)
    ensures Returns(v, ORDER)
  {
    hide Register.Steps, Step;
    Power32767();
    ReturnsEverything(ORDER, v);
  }

  lemma NoTurn(v: bv16)
    ensures Returns(v, 0)
  {
  }

  // ----- two flipped bits -----

  /** The bit string with ones at exactly these places. */
  ghost predicate OnesAt(e: seq<bool>, places: set<nat>) {
    forall i: nat :: i < |e| ==> (e[i] <==> i in places)
  }

  lemma {:induction false} QuietBits(r: bv16, e: seq<bool>)
    requires AllClear(e)
    ensures REG.ShiftAll(r, e) == REG.Steps(r, |e|)
    decreases |e|
  {
    hide Step, Xor;
    if e != [] {
      XorClear(r);
      QuietBits(Step(r), e[1..]);
    }
  }

  /** One error: its bit entered at the top, shifted to the end. */
  lemma OneError(e: seq<bool>, i: nat)
    requires i < |e| && OnesAt(e, {i})
    ensures REG.ShiftAll(0, e) == REG.Steps(0x8000, |e| - i)
  {
    hide Step, Xor, Register.Steps, Register.ShiftAll;
    var before, after := e[..i], e[i + 1..];
    assert e == before + ([true] + after);
    assert AllClear(before) && AllClear(after);
    ShiftAllConcat(REG, 0, before, [true] + after);
    QuietBits(0, before);
    StepsClear(0, i);
    ShiftFirst(0, after);
    QuietBits(Step(0x8000), after);
    StepsAdd(0x8000, 1, |after|);
    OneStep(0x8000);
  }

  lemma ShiftFirst(r: bv16, after: seq<bool>)
    ensures REG.ShiftAll(r, [true] + after) == REG.ShiftAll(Step(Xor(r, 0x8000)), after)
    ensures Xor(0, 0x8000) == 0x8000
  {
    hide Step;
    assert ([true] + after)[1..] == after;
  }

  lemma TopWord()
    ensures X(15) == 0x8000
  {
    LowPowers();
  }

  lemma SplitOnes(e: seq<bool>, i: nat, j: nat)
    requires i < j < |e| && OnesAt(e, {i, j})
    ensures e == e[..j] + ([true] + e[j + 1..]) && OnesAt(e[..j], {i}) && AllClear(e[j + 1..])
  {
  }

  /** Two errors cancel exactly when they are a multiple of 32767 bits apart. */
  lemma TwoErrors(e: seq<bool>, i: nat, j: nat)
    requires i < j < |e| && OnesAt(e, {i, j})
    ensures REG.ShiftAll(0, e) == 0 <==> (j - i) % ORDER == 0
  {
    hide Step, Xor, Register.Steps, Register.ShiftAll, Returns, OnesAt, AllClear;
    var before, after := e[..j], e[j + 1..];
    SplitOnes(e, i, j);
    ShiftAllConcat(REG, 0, before, [true] + after);
    OneError(before, i);
    var r := REG.Steps(0x8000, j - i);
    ShiftFirst(r, after);
    QuietBits(Step(Xor(r, 0x8000)), after);
    StepsClear(Step(Xor(r, 0x8000)), |after|);
    StepClear(Xor(r, 0x8000));
    XorEqual(r, 0x8000);
    TurnsTop(j - i);
    OneIsRestless();
    TurnExactly(1, j - i);
  }

  lemma TurnsTop(d: nat)
    ensures REG.Steps(0x8000, d) == 0x8000 <==> Returns(1, d)
  {
    hide Register.Steps;
    TopWord();
    StepsAdd(1, 15, d);
    StepsAdd(1, d, 15);
    assert 15 + d == d + 15;
    StepsInjective(X(d), 1, 15);
  }

  /** Two messages of one length differ in exactly the bits at these places. */
  ghost predicate FlippedAt(a: seq<byte>, b: seq<byte>, places: set<nat>) {
    |a| == |b| && OnesAt(Diff(Bits(a), Bits(b)), places)
  }

  /**
   * Two flipped bits leave the check of a message alone if and only if they are a multiple
   * of 32767 bits apart, whatever the register held before.
   */
  lemma TwoFlipsEscapeExactly(a: seq<byte>, b: seq<byte>, i: nat, j: nat, r: bv16)
    requires i < j < 8 * |a| && FlippedAt(a, b, {i, j})
    ensures Crc(r, a) == Crc(r, b) <==> (j - i) % ORDER == 0
  {
    hide Step, Xor, Crc, Bits, Register.ShiftAll, OnesAt;
    EscapesExactly(a, b, r);
    TwoErrors(Diff(Bits(a), Bits(b)), i, j);
  }
}
