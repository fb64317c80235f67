/**
 * What the initial value of the check is for: it tells messages apart that differ in the
 * number of zero bytes they start with. And the check of the standard test message.
 */
module CrcStart {
  import opened Bytes
  import opened BurstBound
  import opened Crc16
  import opened CrcOrder
  import opened ErrorBound
  import opened ShiftRegister

  function Zeros(n: nat): (z: seq<byte>)
    ensures |z| == n
  {
    seq(n, _ => 0)
  }

  lemma {:induction false} ZerosShift(r: bv16, n: nat)
    ensures Crc(r, Zeros(n)) == REG.Steps(r, 8 * n)
    decreases n
  {
    hide Step, Register.Steps;
    if n == 0 {
      NoMoreSteps(r);
    } else {
      assert Zeros(n)[1..] == Zeros(n - 1);
      XorClear(r);
      ZeroWord();
      ZerosShift(REG.Steps(r, 8), n - 1);
      StepsAdd(r, 8, 8 * (n - 1));
    }
  }

  lemma ZeroWord()
    ensures Word(0) == 0
  {
  }

  /** The same message from two initial values. */
  lemma CrcInjective(r: bv16, s: bv16, data: seq<byte>)
    ensures Crc(r, data) == Crc(s, data) <==> r == s
  {
    hide Step, Xor, Crc, Bits, Register.Steps, Register.ShiftAll, AllClear;
    CrcIsBitSerial(r, data);
    CrcIsBitSerial(s, data);
    LinearRegister();
    DifferenceLaw(REG, r, s, Bits(data), Bits(data));
    NoOwnDifferences(data);
    QuietBits(Xor(r, s), Differ(data, data));
    StepsClear(Xor(r, s), 8 * |data|);
    XorEqual(r, s);
    XorEqual(Crc(r, data), Crc(s, data));
  }

  lemma InitIsRestless()
    ensures Restless(INIT)
  {
    hide Mul, Register.Steps, X;
    StepsIsMul(INIT, 4681);
    StepsIsMul(INIT, 1057);
    StepsIsMul(INIT, 217);
    Power4681();
    Power1057();
    Power217();
    InitMoves();
  }

  lemma InitMoves()
    ensures Mul(INIT, 0x2C42) != INIT && Mul(INIT, 0xF2AF) != INIT && Mul(INIT, 0x48E3) != INIT
  {
  }

  /**
   * Zero bytes put in front of a message leave its check alone exactly if their number is a
   * multiple of 32767.
   */
  lemma LeadingZerosExactly(n: nat, data: seq<byte>)
    ensures Crc(INIT, Zeros(n) + data) == Crc(INIT, data) <==> n % ORDER == 0
  {
    hide Crc, Register.Steps, Restless;
    CrcConcat(INIT, Zeros(n), data);
    ZerosShift(INIT, n);
    CrcInjective(REG.Steps(INIT, 8 * n), INIT, data);
    InitIsRestless();
    TurnExactly(INIT, 8 * n);
    EightIsOdd(n);
  }

  /** Eight is prime to the odd order. */
  lemma EightIsOdd(n: nat)
    ensures (8 * n) % ORDER == 0 <==> n % ORDER == 0
  {
  }

  // ----- the standard test message -----

  /** The check after one more byte. */
  lemma NextByte(r: bv16, b: byte, rest: seq<byte>)
    ensures Crc(r, [b] + rest) == Crc(Fold4(Fold4(Xor(r, Word(b)))), rest)
  {
    hide Step, Xor, Word, Fold4, Register.Steps;
    assert ([b] + rest)[0] == b && ([b] + rest)[1..] == rest;
    var v := Xor(r, Word(b));
    StepsAdd(v, 4, 4);
    FourFold(v);
    FourFold(Fold4(v));
  }

  lemma Digits()
    ensures Fold4(Fold4(Xor(0xFFFF, 0x3100))) == 0xC782
    ensures Fold4(Fold4(Xor(0xC782, 0x3200))) == 0x3DBA
    ensures Fold4(Fold4(Xor(0x3DBA, 0x3300))) == 0x5BCE
    ensures Fold4(Fold4(Xor(0x5BCE, 0x3400))) == 0x5349
    ensures Fold4(Fold4(Xor(0x5349, 0x3500))) == 0x4560
    ensures Fold4(Fold4(Xor(0x4560, 0x3600))) == 0x2EF4
    ensures Fold4(Fold4(Xor(0x2EF4, 0x3700))) == 0x7718
    ensures Fold4(Fold4(Xor(0x7718, 0x3800))) == 0xA12B
    ensures Fold4(Fold4(Xor(0xA12B, 0x3900))) == 0x29B1
  {
  }

  lemma DigitWords()
    ensures Word(0x31) == 0x3100 && Word(0x32) == 0x3200 && Word(0x33) == 0x3300
    ensures Word(0x34) == 0x3400 && Word(0x35) == 0x3500 && Word(0x36) == 0x3600
    ensures Word(0x37) == 0x3700 && Word(0x38) == 0x3800 && Word(0x39) == 0x3900
  {
  }

  /** Three bytes, the register going through `t`, `u` and `v`. */
  lemma NextThree(r: bv16, x: byte, y: byte, z: byte, t: bv16, u: bv16, v: bv16, rest: seq<byte>)
    requires Fold4(Fold4(Xor(r, Word(x)))) == t && Fold4(Fold4(Xor(t, Word(y)))) == u &&
             Fold4(Fold4(Xor(u, Word(z)))) == v
    ensures Crc(r, [x, y, z] + rest) == Crc(v, rest)
  {
    hide Crc, Xor, Word, Fold4;
    assert [x, y, z] + rest == [x] + ([y] + ([z] + rest));
    NextByte(r, x, [y] + ([z] + rest));
    NextByte(t, y, [z] + rest);
    NextByte(u, z, rest);
  }

  /** The nine digits, as every CRC16-CCITT with this initial value is tested. */
  lemma CheckOfDigits()
    ensures Crc(INIT, [0x31, 0x32, 0x33, 0x34, 0x35, 0x36, 0x37, 0x38, 0x39]) == 0x29B1
  {
    Digits();
    DigitWords();
    hide Crc, Xor, Word, Fold4;
    var last: seq<byte> := [0x37, 0x38, 0x39] + [];
    var middle: seq<byte> := [0x34, 0x35, 0x36] + last;
    NextThree(0xFFFF, 0x31, 0x32, 0x33, 0xC782, 0x3DBA, 0x5BCE, middle);
    NextThree(0x5BCE, 0x34, 0x35, 0x36, 0x5349, 0x4560, 0x2EF4, last);
    NextThree(0x2EF4, 0x37, 0x38, 0x39, 0x7718, 0xA12B, 0x29B1, []);
    NothingChecked(0x29B1);
    assert [0x31, 0x32, 0x33, 0x34, 0x35, 0x36, 0x37, 0x38, 0x39] == [0x31, 0x32, 0x33] + middle;
  }

  lemma NothingChecked(r: bv16)
    ensures Crc(r, []) == r
  {
  }
}
