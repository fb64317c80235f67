/**
 * The frame check: CRC16-CCITT (polynomial 0x1021) of Crc16.h and protocol.py, and which
 * transmission errors it is certain to detect.
 */
module Crc16 {
  import opened Bytes
  import opened ShiftRegister

  const INIT: bv16 := 0xFFFF

  function Xor(a: bv16, b: bv16): bv16 { a ^ b }

  function Shl1(a: bv16): bv16 { a << 1 }

  predicate Msb(a: bv16) { a & 0x8000 != 0 }

  /** One shift of the register, reduced by the polynomial. */
  function Step(r: bv16): bv16 {
    if Msb(r) then Xor(Shl1(r), 0x1021) else Shl1(r)
  }

  const REG: Register<bv16> := Register(0, 0x8000, Xor, Step)

  /** A message byte enters at the top of the register. */
  function Word(b: byte): bv16 {
    (b as bv16) << 8
  }

  function Crc(r: bv16, data: seq<byte>): bv16
    decreases |data|
  {
    if data == [] then r else Crc(REG.Steps(REG.add(r, Word(data[0])), 8), data[1..])
  }

  /** The register loop of the device and of the host. */
  method Compute(data: array<byte>, len: nat, init: bv16) returns (crc: bv16)
    requires len <= data.Length
    ensures crc == Crc(init, data[..len])
  {
    hide Step;
    crc := init;
    assert data[0..len] == data[..len];
    for i := 0 to len
      invariant Crc(crc, data[i..len]) == Crc(init, data[..len])
    {
      assert data[i..len][1..] == data[i + 1..len];
      crc := Reduce(crc ^ ((data[i] as bv16) << 8));
    }
  }

  method Reduce(loaded: bv16) returns (crc: bv16)
    ensures crc == REG.Steps(loaded, 8)
  {
    hide Register.Steps;
    crc := loaded;
    for j := 0 to 8
      invariant REG.Steps(crc, 8 - j) == REG.Steps(loaded, 8)
    {
      OneMoreStep(crc, 8 - j);
      if crc & 0x8000 != 0 {
        crc := (crc << 1) ^ 0x1021;
      } else {
        crc := crc << 1;
      }
    }
    NoMoreSteps(crc);
  }

  lemma OneMoreStep(r: bv16, n: nat)
    requires n > 0
    ensures REG.Steps(r, n) == REG.Steps(Step(r), n - 1)
  {
  }

  lemma NoMoreSteps(r: bv16)
    ensures REG.Steps(r, 0) == r
  {
  }

  /** A message may be checked in pieces, the register of the first seeding the second. */
  lemma {:induction false} CrcConcat(r: bv16, a: seq<byte>, b: seq<byte>)
    ensures Crc(r, a + b) == Crc(Crc(r, a), b)
    decreases |a|
  {
    if a == [] {
      assert a + b == b;
    } else {
      assert (a + b)[1..] == a[1..] + b;
      CrcConcat(REG.Steps(REG.add(r, Word(a[0])), 8), a[1..], b);
    }
  }

  // ----- the byte-wise loop is the bit-serial register -----

  function ByteBits(b: byte): (s: seq<bool>)
    ensures |s| == 8
  {
    TopBits(Shl1, Msb, Word(b), 8)
  }

  /** The message as bits, each byte most significant bit first. */
  function Bits(data: seq<byte>): (s: seq<bool>)
    ensures |s| == 8 * |data|
  {
    if data == [] then [] else ByteBits(data[0]) + Bits(data[1..])
  }

  lemma ShlXor(a: bv16, b: bv16)
    ensures Shl1(Xor(a, b)) == Xor(Shl1(a), Shl1(b))
  {
  }

  lemma MsbXor(a: bv16, b: bv16)
    ensures Msb(Xor(a, b)) == (Msb(a) != Msb(b))
  {
  }

  lemma XorCancel(a: bv16, b: bv16, p: bv16)
    ensures Xor(Xor(a, p), Xor(b, p)) == Xor(a, b)
  {
  }

  lemma XorSwap(a: bv16, b: bv16, p: bv16)
    ensures Xor(Xor(a, p), b) == Xor(Xor(a, b), p)
  {
  }

  lemma XorAssoc(a: bv16, b: bv16, p: bv16)
    ensures Xor(a, Xor(b, p)) == Xor(Xor(a, b), p)
  {
  }

  lemma StepLinear(a: bv16, b: bv16)
    ensures Step(Xor(a, b)) == Xor(Step(a), Step(b))
  {
    hide Xor, Shl1, Msb;
    ShlXor(a, b);
    MsbXor(a, b);
    XorCancel(Shl1(a), Shl1(b), 0x1021);
    XorSwap(Shl1(a), Shl1(b), 0x1021);
    XorAssoc(Shl1(a), Shl1(b), 0x1021);
  }

  /** A word splits into its top bit and the rest, which merely shifts. */
  lemma TopAndRest(v: bv16) returns (low: bv16)
    ensures v == Xor(low, if Msb(v) then 0x8000 else 0) && Step(low) == Shl1(v)
  {
    low := v & 0x7FFF;
  }

  lemma StepTop(r: bv16, v: bv16)
    ensures REG.step(REG.add(r, v)) == REG.add(REG.Shift(r, Msb(v)), Shl1(v))
  {
    hide Xor, Shl1, Msb, Step;
    var low := TopAndRest(v);
    var top := REG.Bit(Msb(v));
    XorSwap(r, low, top);
    XorAssoc(r, low, top);
    StepLinear(Xor(r, top), low);
  }

  lemma ByteIsShiftedOut(b: byte)
    ensures Shl(Shl1, Word(b), 8) == 0
  {
    ShlEight(Word(b));
  }

  lemma ShlEight(w: bv16)
    ensures Shl(Shl1, w, 8) == w << 8
  {
    EightShifts(w);
    hide Shl, Shl1;
    var w2 := Shl1(Shl1(w));
    var w4 := Shl1(Shl1(w2));
    var w6 := Shl1(Shl1(w4));
    ShlNext(w, 7);
    ShlNext(Shl1(w), 6);
    ShlNext(w2, 5);
    ShlNext(Shl1(w2), 4);
    ShlNext(w4, 3);
    ShlNext(Shl1(w4), 2);
    ShlNext(w6, 1);
    ShlNext(Shl1(w6), 0);
  }

  lemma EightShifts(w: bv16)
    ensures Shl1(Shl1(Shl1(Shl1(Shl1(Shl1(Shl1(Shl1(w)))))))) == w << 8
  {
  }

  lemma ShlNext(w: bv16, n: nat)
    ensures Shl(Shl1, w, n + 1) == Shl(Shl1, Shl1(w), n) && Shl(Shl1, w, 0) == w
    ensures n == 0 ==> Shl(Shl1, w, 1) == Shl1(w)
  {
  }

  lemma XorClear(a: bv16)
    ensures Xor(a, 0) == a
  {
  }

  lemma ByteIsBits(r: bv16, b: byte)
    ensures REG.Steps(REG.add(r, Word(b)), 8) == REG.ShiftAll(r, ByteBits(b))
  {
    hide Step, Word, Xor, Msb, Shl1, TopBits, Shl, Register.Steps, Register.Shift;
    forall a, b ensures REG.step(REG.add(a, b)) == REG.add(REG.Shift(a, Msb(b)), Shl1(b)) {
      StepTop(a, b);
    }
    WordIsBits(REG, Shl1, Msb, r, Word(b), 8);
    ByteIsShiftedOut(b);
    XorClear(REG.ShiftAll(r, ByteBits(b)));
  }

  lemma {:induction false} CrcIsBitSerial(r: bv16, data: seq<byte>)
    ensures Crc(r, data) == REG.ShiftAll(r, Bits(data))
    decreases |data|
  {
    hide Step, Word, Xor, ByteBits, Register.Steps, Register.Shift;
    if data != [] {
      ByteIsBits(r, data[0]);
      ShiftAllConcat(REG, r, ByteBits(data[0]), Bits(data[1..]));
      CrcIsBitSerial(REG.ShiftAll(r, ByteBits(data[0])), data[1..]);
    }
  }

  // ----- detection -----

  lemma LinearRegister()
    ensures Linear(REG)
  {
    forall r, s, b, c
      ensures REG.add(REG.Shift(r, b), REG.Shift(s, c)) == REG.Shift(REG.add(r, s), b != c)
    {
      ShiftLinear(r, s, b, c);
    }
    forall r, s: bv16 ensures Xor(r, s) == 0 <==> r == s {
      XorEqual(r, s);
    }
    forall r ensures REG.Shift(r, false) == 0 <==> r == 0 {
      StepClear(r);
      XorClear(r);
    }
  }

  lemma XorEqual(r: bv16, s: bv16)
    ensures Xor(r, s) == 0 <==> r == s
  {
  }

  /** The polynomial is odd, so no shift clears a register that was not clear. */
  lemma StepClear(r: bv16)
    ensures Step(r) == 0 <==> r == 0
  {
  }

  lemma ShiftLinear(r: bv16, s: bv16, b: bool, c: bool)
    ensures REG.add(REG.Shift(r, b), REG.Shift(s, c)) == REG.Shift(REG.add(r, s), b != c)
  {
    hide Step, Xor;
    var x, y := REG.Bit(b), REG.Bit(c);
    StepLinear(Xor(r, x), Xor(s, y));
    XorAssoc(Xor(r, x), s, y);
    XorSwap(r, s, x);
    XorAssoc(Xor(r, s), x, y);
    assert Xor(x, y) == REG.Bit(b != c) by { BitXor(b, c); }
  }

  lemma BitXor(b: bool, c: bool)
    ensures Xor(REG.Bit(b), REG.Bit(c)) == REG.Bit(b != c)
  {
  }

  /** Exactly which corruptions of a message escape: those whose error pattern, alone, leaves the register clear. */
  lemma EscapesExactly(a: seq<byte>, b: seq<byte>, r: bv16)
    requires |a| == |b|
    ensures Crc(r, a) == Crc(r, b) <==> REG.ShiftAll(0, Diff(Bits(a), Bits(b))) == 0
  {
    hide Step, Xor, Crc;
    LinearRegister();
    CrcIsBitSerial(r, a);
    CrcIsBitSerial(r, b);
    UndetectedExactly(REG, r, Bits(a), Bits(b));
  }

  // ----- bursts of up to 16 bits -----

  function LowMask(n: nat): bv16 {
    if n == 0 then 0 else (LowMask(n - 1) << 1) | 1
  }

  /** `d` has a bit among its low `16 - k`, which `k` more shifts cannot push out. */
  ghost predicate Live(d: bv16, k: nat) {
    k <= 15 && Meets(d, LowMask(16 - k))
  }

  lemma {:induction false} LowMaskBelowTop(n: nat)
    requires n <= 15
    ensures LowMask(n) & 0x8000 == 0
  {
    assert LowMask(3) == 0x7;
    assert LowMask(6) == 0x3F;
    assert LowMask(9) == 0x1FF;
    assert LowMask(12) == 0xFFF;
    assert LowMask(15) == 0x7FFF;
    hide LowMask, Within;
    LowMaskGrows(n, 15);
    MaskBelowTop(LowMask(n));
  }

  lemma MaskBelowTop(m: bv16)
    requires Within(m, 0x7FFF)
    ensures m & 0x8000 == 0
  {
  }

  predicate Meets(d: bv16, m: bv16) { d & m != 0 }

  predicate Within(a: bv16, b: bv16) { a & b == a }

  lemma {:induction false} LowMaskGrows(n: nat, k: nat)
    requires n <= k <= 16
    ensures Within(LowMask(n), LowMask(k))
    decreases k
  {
    assert LowMask(0) == 0;
    hide LowMask, Within;
    if n == 0 {
      EmptyWithin(LowMask(k));
    } else {
      LowMaskNext(n - 1);
      LowMaskNext(k - 1);
      LowMaskGrows(n - 1, k - 1);
      MaskStep(LowMask(n - 1), LowMask(k - 1));
    }
  }

  lemma EmptyWithin(b: bv16)
    ensures Within(0, b)
  {
  }

  lemma MaskStep(a: bv16, b: bv16)
    requires Within(a, b)
    ensures Within((a << 1) | 1, (b << 1) | 1)
  {
  }

  lemma StillLive(d: bv16, m: bv16)
    requires m & 0x8000 == 0 && Meets(d, m)
    ensures Meets(Step(d), (m << 1) | 1)
  {
  }

  lemma InputIsNotLow(d: bv16, m: bv16, b: bool)
    requires m & 0x8000 == 0
    ensures Meets(Xor(d, REG.Bit(b)), m) == Meets(d, m)
  {
  }

  lemma MaskedBy(d: bv16, a: bv16, b: bv16)
    requires Within(a, b) && Meets(d, a)
    ensures Meets(d, b)
  {
  }

  lemma LiveAfterShift(d: bv16, k: nat, b: bool)
    requires Live(d, k + 1)
    ensures Live(REG.Shift(d, b), k)
  {
    hide Step, Xor, LowMask, Meets;
    var m := LowMask(15 - k);
    LowMaskBelowTop(15 - k);
    LowMaskNext(15 - k);
    InputIsNotLow(d, m, b);
    StillLive(Xor(d, REG.Bit(b)), m);
  }

  lemma LiveForLess(d: bv16, k: nat)
    requires Live(d, k + 1)
    ensures Live(d, k)
  {
    hide LowMask, Meets, Within;
    LowMaskGrows(15 - k, 16 - k);
    MaskedBy(d, LowMask(15 - k), LowMask(16 - k));
  }

  lemma LiveIsNonzero(d: bv16)
    requires Live(d, 0)
    ensures d != 0
  {
    hide LowMask;
  }

  lemma BurstRegister()
    ensures Burst(REG, Live, 16)
  {
    hide Step, Xor, Live;
    forall d, k: nat, b | Live(d, k + 1) ensures Live(REG.Shift(d, b), k) {
      LiveAfterShift(d, k, b);
    }
    forall d, k: nat | Live(d, k + 1) ensures Live(d, k) {
      LiveForLess(d, k);
    }
    forall d | Live(d, 0) ensures d != 0 {
      LiveIsNonzero(d);
    }
    FirstError();
  }

  lemma LowMaskNext(n: nat)
    ensures LowMask(n + 1) == (LowMask(n) << 1) | 1
  {
  }

  lemma FirstError()
    ensures Live(REG.Shift(0, true), 15)
  {
    assert Step(0x8000) == 0x1021 && LowMask(1) == 1;
  }

  /** A burst: two different messages of one length that agree outside 16 consecutive bits. */
  ghost predicate BurstError(a: seq<byte>, b: seq<byte>, from: nat) {
    && |a| == |b| && a != b
    && forall i :: 0 <= i < 8 * |a| && Bits(a)[i] != Bits(b)[i] ==> from <= i < from + 16
  }

  lemma {:induction false} BitsInjective(a: seq<byte>, b: seq<byte>)
    requires |a| == |b| && Bits(a) == Bits(b)
    ensures a == b
    decreases |a|
  {
    if a != [] {
      assert Bits(a)[..8] == ByteBits(a[0]) && Bits(b)[..8] == ByteBits(b[0]);
      assert Bits(a)[8..] == Bits(a[1..]) && Bits(b)[8..] == Bits(b[1..]);
      ByteBitsInjective(a[0], b[0]);
      BitsInjective(a[1..], b[1..]);
      assert a == [a[0]] + a[1..] && b == [b[0]] + b[1..];
    }
  }

  lemma {:induction false} TopBitsInjective(v: bv16, w: bv16, n: nat)
    requires TopBits(Shl1, Msb, v, n) == TopBits(Shl1, Msb, w, n) && Shl(Shl1, v, n) == Shl(Shl1, w, n)
    ensures v == w
    decreases n
  {
    hide Shl1, Msb;
    if n > 0 {
      var s, t := TopBits(Shl1, Msb, v, n), TopBits(Shl1, Msb, w, n);
      assert s[0] == t[0] && s[1..] == t[1..];
      TopBitsInjective(Shl1(v), Shl1(w), n - 1);
      ShlInjective(v, w);
    }
  }

  lemma ShlInjective(v: bv16, w: bv16)
    requires Shl1(v) == Shl1(w) && Msb(v) == Msb(w)
    ensures v == w
  {
  }

  lemma ByteBitsInjective(a: byte, b: byte)
    requires ByteBits(a) == ByteBits(b)
    ensures a == b
  {
    ByteIsShiftedOut(a);
    ByteIsShiftedOut(b);
    TopBitsInjective(Word(a), Word(b), 8) by { hide Word; }
    WordInjective(a, b);
  }

  lemma WordInjective(a: byte, b: byte)
    requires Word(a) == Word(b)
    ensures a == b
  {
    ByteAsWord(a);
    ByteAsWord(b);
    HighByteInjective(a as bv16, b as bv16);
  }

  lemma ByteAsWord(a: byte)
    ensures (a as bv16) as int == a && a as bv16 <= 0xFF
  {
  }

  lemma HighByteInjective(x: bv16, y: bv16)
    requires x <= 0xFF && y <= 0xFF && x << 8 == y << 8
    ensures x == y
  {
  }

  /** Whatever the register held before, a burst within 16 bits changes the check. */
  lemma BurstChangesCrc(a: seq<byte>, b: seq<byte>, from: nat, r: bv16)
    requires BurstError(a, b, from)
    ensures Crc(r, a) != Crc(r, b)
  {
    hide Step, Xor, Crc, Bits, Live;
    var e := Diff(Bits(a), Bits(b));
    if AllClear(e) {
      assert Bits(a) == Bits(b);
      BitsInjective(a, b);
    }
    EscapesExactly(a, b, r);
    LinearRegister();
    BurstRegister();
    BurstDetected(REG, Live, 16, e, from);
  }

  // ----- odd numbers of flipped bits -----

  /** An odd number of the top `n` bits of `v` is set. */
  ghost predicate OddTop(v: bv16, n: nat) {
    Ones(TopBits(Shl1, Msb, v, n)) % 2 == 1
  }

  ghost predicate Odd(v: bv16) {
    OddTop(v, 16)
  }

  lemma OddTopNext(v: bv16, n: nat)
    ensures !OddTop(v, 0)
    ensures OddTop(v, n + 1) == (Msb(v) != OddTop(Shl1(v), n))
  {
    hide Msb, Shl1;
    assert TopBits(Shl1, Msb, v, n + 1)[1..] == TopBits(Shl1, Msb, Shl1(v), n);
  }

  lemma {:induction false} OddTopXor(v: bv16, w: bv16, n: nat)
    ensures OddTop(Xor(v, w), n) == (OddTop(v, n) != OddTop(w, n))
    decreases n
  {
    hide Xor, Shl1, Msb, OddTop;
    var k := if n == 0 then 0 else n - 1;
    OddTopNext(v, k);
    OddTopNext(w, k);
    OddTopNext(Xor(v, w), k);
    if n > 0 {
      MsbXor(v, w);
      ShlXor(v, w);
      OddTopXor(Shl1(v), Shl1(w), n - 1);
    }
  }

  /** One more bit is the one that `n` shifts bring to the top. */
  lemma {:induction false} OddTopLast(v: bv16, n: nat)
    ensures OddTop(v, n + 1) == (OddTop(v, n) != Msb(Shl(Shl1, v, n)))
    decreases n
  {
    hide Xor, Shl1, Msb, OddTop;
    OddTopNext(v, n);
    if n == 0 {
      OddTopNext(Shl1(v), 0);
    } else {
      OddTopNext(v, n - 1);
      OddTopLast(Shl1(v), n - 1);
    }
  }

  lemma LowBitCleared(v: bv16)
    ensures !Msb(Shl(Shl1, Shl1(v), 15))
  {
    SixteenShifts(v);
    hide Shl, Shl1, Msb;
    var w1 := Shl1(v);
    var w3 := Shl1(Shl1(w1));
    var w5 := Shl1(Shl1(w3));
    var w7 := Shl1(Shl1(w5));
    ShlNext(w1, 14);
    ShlNext(Shl1(w1), 13);
    ShlNext(w3, 12);
    ShlNext(Shl1(w3), 11);
    ShlNext(w5, 10);
    ShlNext(Shl1(w5), 9);
    ShlNext(w7, 8);
    ShlEight(Shl1(w7));
  }

  lemma SixteenShifts(w: bv16)
    ensures !Msb(Shl1(Shl1(Shl1(Shl1(Shl1(Shl1(Shl1(Shl1(w)))))))) << 8)
  {
    EightShifts(w);
  }

  lemma OddShl(v: bv16)
    ensures Odd(Shl1(v)) == (Odd(v) != Msb(v))
  {
    hide Shl1, Msb, OddTop;
    OddTopLast(Shl1(v), 15);
    LowBitCleared(v);
    OddTopNext(v, 15);
  }

  lemma {:induction false} OddZero(n: nat)
    ensures !OddTop(0, n)
    decreases n
  {
    if n == 0 {
      OddTopNext(0, 0);
    } else {
      OddTopNext(0, n - 1);
      OddZero(n - 1);
      hide OddTop;
    }
  }

  /** The polynomial has three low terms, an odd number. */
  lemma OddPolynomial()
    ensures Odd(0x8000) && Odd(0x1021)
  {
    OddTopNext(0x8000, 15);
    OddZero(15);
    hide Odd;
    OddShl(0x4000); OddShl(0x2000); OddShl(0x1000); OddShl(0x800); OddShl(0x400);
    OddShl(0x200); OddShl(0x100); OddShl(0x80); OddShl(0x40); OddShl(0x20);
    OddShl(0x10); OddShl(8); OddShl(4); OddShl(2); OddShl(1);
    OddXor(0x1000, 0x20);
    OddXor(0x1020, 1);
  }

  lemma OddStep(r: bv16)
    ensures Odd(Step(r)) == Odd(r)
  {
    hide Xor, Shl1, Msb, Odd;
    OddShl(r);
    OddPolynomial();
    OddXor(Shl1(r), 0x1021);
  }

  lemma OddXor(v: bv16, w: bv16)
    ensures Odd(Xor(v, w)) == (Odd(v) != Odd(w))
  {
    hide Xor, OddTop;
    OddTopXor(v, w, 16);
  }

  lemma OddClear()
    ensures !Odd(0)
  {
    OddZero(16);
  }

  /** The parity of a register is that of its two bytes. */
  lemma OddHalves(c: bv16)
    ensures Odd(c) == (OddTop(c << 8, 8) != OddTop(c & 0xFF00, 8))
  {
    hide OddTop, Xor, Shl1;
    OddTopSplit(c, 8, 8);
    ShlEight(c);
    OddTopXor(c & 0xFF00, c & 0xFF, 8);
    HighAndLow(c);
    OddTopLow(c);
  }

  lemma HighAndLow(c: bv16)
    ensures Xor(c & 0xFF00, c & 0xFF) == c
  {
  }

  lemma {:induction false} OddTopSplit(v: bv16, n: nat, k: nat)
    ensures OddTop(v, n + k) == (OddTop(v, n) != OddTop(Shl(Shl1, v, n), k))
    decreases n
  {
    hide OddTop, Shl1, Msb;
    OddTopNext(v, 0);
    if n > 0 {
      OddTopNext(v, n + k - 1);
      OddTopNext(v, n - 1);
      OddTopSplit(Shl1(v), n - 1, k);
    }
  }

  /** The high byte of a small word is clear. */
  lemma OddTopLow(c: bv16)
    ensures !OddTop(c & 0xFF, 8)
  {
    hide OddTop;
    var w := c & 0xFF;
    OddTopNext(w, 7);
    OddTopNext(w << 1, 6);
    OddTopNext(w << 2, 5);
    OddTopNext(w << 3, 4);
    OddTopNext(w << 4, 3);
    OddTopNext(w << 5, 2);
    OddTopNext(w << 6, 1);
    OddTopNext(w << 7, 0);
    OddTopNext(w << 8, 0);
    SmallWord(w);
  }

  lemma SmallWord(w: bv16)
    requires w & 0xFF == w
    ensures !Msb(w) && !Msb(w << 1) && !Msb(w << 2) && !Msb(w << 3)
    ensures !Msb(w << 4) && !Msb(w << 5) && !Msb(w << 6) && !Msb(w << 7)
    ensures Shl1(w) == w << 1 && Shl1(w << 1) == w << 2 && Shl1(w << 2) == w << 3 && Shl1(w << 3) == w << 4
    ensures Shl1(w << 4) == w << 5 && Shl1(w << 5) == w << 6 && Shl1(w << 6) == w << 7 && Shl1(w << 7) == w << 8
  {
  }

  lemma ParityRegister()
    ensures Parity(REG, v => Odd(v))
  {
    hide Xor, Step, Odd, OddTop;
    OddClear();
    OddPolynomial();
    forall r, b ensures Odd(REG.Shift(r, b)) == (Odd(r) != b) {
      OddStep(Xor(r, REG.Bit(b)));
      OddXor(r, REG.Bit(b));
    }
  }

  /** The check preserves parity: it is odd exactly when the message has an odd number of ones. */
  lemma CrcParity(r: bv16, data: seq<byte>)
    ensures Odd(Crc(r, data)) == (Odd(r) != (Ones(Bits(data)) % 2 == 1))
  {
    hide Odd, Crc, Bits;
    CrcIsBitSerial(r, data);
    ParityRegister();
    ParityLaw(REG, v => Odd(v), r, Bits(data));
  }
}
